/**
 * The command-line helpers of argv.py. Every lookup consumes what it finds:
 * the process argument list `sys.argv` is state that the helpers shrink, so
 * it is the `args` field of a `CommandLine` object here, and each helper that
 * deletes from it is a method of that class.
 *
 * Python values that flow through the helpers (defaults, operands, parsed
 * numbers) are `Value`s; `sys.exit(-1)` is the outcome `Exit(-1)`, and an
 * exception that the helpers do not catch is the outcome `Raise(...)`.
 */
module Argv {
  import opened Py

  /** The Python values the helpers take as defaults and return. */
  datatype Value =
    | NoneValue
    | Str(s: string)
    | Int(i: int)
    | Float(x: real)
    | Pair(first: Value, second: Value)

  /** The exceptions that escape from the helpers to their caller. */
  datatype Exception =
    | IndexError  // an option is the last argument, so its operand is missing
    | ValueError  // `int()` or `float()` rejected the operand

  /** How a helper call ends: it returns a value, ends the process, or raises. */
  datatype Outcome = Return(value: Value) | Exit(code: int) | Raise(error: Exception)

  // ---------------------------------------------------------------------------
  // Python equality and list membership
  // ---------------------------------------------------------------------------

  /**
   * Python's `a == b` on values: numbers compare by value across `int` and
   * `float`, tuples componentwise, and values of different kinds are unequal
   * (so the string "0" is not equal to the number 0).
   */
  predicate Equal(a: Value, b: Value)
    ensures a == b ==> Equal(a, b)  // every modelled value equals itself (no nan)
  {
    match a
    case Int(i) => (b.Int? && b.i == i) || (b.Float? && b.x == i as real)
    case Float(x) => (b.Float? && b.x == x) || (b.Int? && b.i as real == x)
    case Pair(a1, a2) => b.Pair? && Equal(a1, b.first) && Equal(a2, b.second)
    case _ => a == b
  }

  lemma {:induction false} EqualSymmetric(a: Value, b: Value)
    ensures Equal(a, b) <==> Equal(b, a)
  {
    if a.Pair? && b.Pair? {
      EqualSymmetric(a.first, b.first);
      EqualSymmetric(a.second, b.second);
    }
  }

  /** A string equals only the same string: never a number, a tuple or None. */
  lemma EqualToString(s: string, v: Value)
    ensures Equal(Str(s), v) <==> v == Str(s)
    ensures Equal(v, Str(s)) <==> v == Str(s)
  {
    EqualSymmetric(v, Str(s));
  }

  /** Python's `x in xs` on a list: some element equals `x`. */
  function Member(x: Value, xs: seq<Value>): (b: bool)
    ensures b <==> exists k :: 0 <= k < |xs| && Equal(xs[k], x)
  {
    if xs == [] then false
    else if Equal(xs[0], x) then true
    else
      assert forall k :: 0 < k < |xs| ==> xs[k] == xs[1..][k - 1];
      Member(x, xs[1..])
  }

  /**
   * `_isValid`: with no list of valid values (`None`) everything is accepted;
   * otherwise exactly the members of the list are. The printed diagnostic of
   * argv.py is not modelled.
   */
  function IsValid(arg: Value, validArgs: Option<seq<Value>>): (ok: bool)
    ensures validArgs.None? ==> ok
    ensures validArgs.Some? ==> (ok <==> exists k :: 0 <= k < |validArgs.value| && Equal(validArgs.value[k], arg))
  {
    match validArgs
    case None => true
    case Some(valid) => Member(arg, valid)
  }

  // ---------------------------------------------------------------------------
  // Left-over options
  // ---------------------------------------------------------------------------

  /**
   * The argument that `exitIfAnyUnparsedOptions` reports: the first one that
   * contains `--` anywhere (not only as a prefix), or none.
   */
  function UnrecognizedOption(args: seq<string>): (r: Option<nat>)
    ensures r.Some? ==> r.value < |args| && Contains(args[r.value], "--")
    ensures r.Some? ==> forall k :: 0 <= k < r.value ==> !Contains(args[k], "--")
    ensures r.None? <==> forall k :: 0 <= k < |args| ==> !Contains(args[k], "--")
  {
    if args == [] then None
    else if Contains(args[0], "--") then Some(0)
    else
      match UnrecognizedOption(args[1..])
      case None =>
        assert forall k :: 0 < k < |args| ==> args[k] == args[1..][k - 1];
        None
      case Some(j) =>
        assert forall k :: 0 < k < |args| ==> args[k] == args[1..][k - 1];
        Some(j + 1)
  }

  /** An argument with `--` in its middle, such as a file name, is also reported. */
  lemma EmbeddedDashesReported()
    ensures UnrecognizedOption(["-v", "a--b"]) == Some(1)
  {
    assert OccursAt("a--b", "--", 1);
    assert !OccursAt("-v", "--", 0) by { assert "-v"[0..2][1] != "--"[1]; }
  }

  // ---------------------------------------------------------------------------
  // File names
  // ---------------------------------------------------------------------------

  /** `[f for f in files if os.path.splitext(f)[1] in extensions]`. */
  function FilterByExtension(files: seq<string>, extensions: seq<string>): (r: seq<string>)
    ensures IsSubsequence(r, files)
    ensures forall f :: multiset(r)[f] == if Extension(f) in extensions then multiset(files)[f] else 0
  {
    if files == [] then []
    else
      var rest := FilterByExtension(files[1..], extensions);
      assert files == [files[0]] + files[1..];
      if Extension(files[0]) in extensions then
        assert ([files[0]] + rest)[1..] == rest;
        [files[0]] + rest
      else
        rest
  }

  /** Whether the extension filter of `filenames` lets `f` through. */
  predicate Kept(f: string, extensions: Option<seq<string>>)
  {
    extensions.None? || Extension(f) in extensions.value
  }

  /**
   * The file list that `filenames` returns: the files that pass the extension
   * filter, sorted when asked and otherwise in their original order.
   */
  function SelectFiles(existing: seq<string>, extensions: Option<seq<string>>, sort: bool): (names: seq<string>)
    ensures forall f :: multiset(names)[f] == (if Kept(f, extensions) then multiset(existing)[f] else 0)
    ensures sort ==> Sorted(names)
    ensures !sort ==> IsSubsequence(names, existing)
  {
    SubsequenceReflexive(existing);
    var kept := if extensions.Some? then FilterByExtension(existing, extensions.value) else existing;
    if sort then Sort(kept) else kept
  }

  /** The base names that `filenames` returns: each name with its extension stripped. */
  function StripExtensions(names: seq<string>): (bases: seq<string>)
    ensures |bases| == |names|
    ensures forall k :: 0 <= k < |names| ==> bases[k] + Extension(names[k]) == names[k]
  {
    seq(|names|, k requires 0 <= k < |names| => SplitExt(names[k]).0)
  }

  /**
   * The tail of `filenames`: `existing` is the list of existing files that the
   * wildcard expansion produced. Files whose extension is not listed are
   * dropped (when a list is given), the rest are sorted when asked, and the
   * second list holds each name with its extension stripped.
   */
  function Filenames(existing: seq<string>, extensions: Option<seq<string>>, sort: bool): (r: (seq<string>, seq<string>))
    ensures |r.1| == |r.0|
    ensures forall k :: 0 <= k < |r.0| ==> r.1[k] + Extension(r.0[k]) == r.0[k]
    ensures forall f :: multiset(r.0)[f] == (if Kept(f, extensions) then multiset(existing)[f] else 0)
    ensures sort ==> Sorted(r.0)
    ensures !sort ==> IsSubsequence(r.0, existing)
  {
    var names := SelectFiles(existing, extensions, sort);
    (names, StripExtensions(names))
  }

  // ---------------------------------------------------------------------------
  // The argument list and the helpers that consume it
  // ---------------------------------------------------------------------------

  class CommandLine {
    /** `sys.argv`. */
    var args: seq<string>
    /** Python's `int()` on a string: the number, or `None` where it raises `ValueError`. */
    const parseInt: string -> Option<int>
    /** Python's `float()` on a string: the number, or `None` where it raises `ValueError`. */
    const parseFloat: string -> Option<real>

    constructor (args: seq<string>, parseInt: string -> Option<int>, parseFloat: string -> Option<real>)
      ensures this.args == args
      ensures this.parseInt == parseInt && this.parseFloat == parseFloat
    {
      this.args := args;
      this.parseInt := parseInt;
      this.parseFloat := parseFloat;
    }

    /**
     * `exists`: whether the flag `name` was given. The first occurrence, and
     * nothing else, is removed; a flag given twice is still there afterwards.
     */
    method Exists(name: string) returns (found: bool)
      modifies this
      ensures found <==> name in old(args)
      ensures found ==> args == DeleteSlice(old(args), IndexOf(old(args), name), 1)
      ensures found ==> (name in args <==> multiset(old(args))[name] >= 2)
      ensures !found ==> args == old(args)
    {
      found := name in args;
      if found {
        DeleteFirstOccurrence(args, name);
        args := DeleteSlice(args, IndexOf(args, name), 1);
      }
    }

    /**
     * `_string`: the operand that follows the first occurrence of `name`,
     * after removing both; `default` when `name` is absent. An option given
     * as the last argument raises `IndexError` before anything is removed.
     */
    method TakeString(name: string, default: Value) returns (r: Outcome)
      modifies this
      ensures name !in old(args) ==> r == Return(default) && args == old(args)
      ensures name in old(args) ==>
        var a, i := old(args), IndexOf(old(args), name);
        if i + 1 < |a| then r == Return(Str(a[i + 1])) && args == DeleteSlice(a, i, 2)
        else r == Raise(IndexError) && args == a
    {
      if name in args {
        var i := IndexOf(args, name);
        if i + 1 >= |args| {
          return Raise(IndexError);
        }
        var argstr := args[i + 1];
        args := DeleteSlice(args, i, 2);
        r := Return(Str(argstr));
      } else {
        r := Return(default);
      }
    }

    /**
     * `intval`: `default` when the option is absent or when its operand equals
     * `default` (possible only for a string default); otherwise `int()` of
     * the operand. The option and its operand are consumed either way.
     */
    method IntVal(name: string, default: Value) returns (r: Outcome)
      modifies this
      ensures name !in old(args) ==> r == Return(default) && args == old(args)
      ensures name in old(args) ==>
        var a, i := old(args), IndexOf(old(args), name);
        if i + 1 >= |a| then r == Raise(IndexError) && args == a
        else
          args == DeleteSlice(a, i, 2) &&
          r == if default == Str(a[i + 1]) then Return(default)
               else if parseInt(a[i + 1]).Some? then Return(Int(parseInt(a[i + 1]).value))
               else Raise(ValueError)
    {
      var argstr := TakeString(name, NoneValue);
      if argstr.Raise? {
        return argstr;
      }
      if argstr.value == NoneValue {
        return Return(default);
      }
      var s := argstr.value.s;
      EqualToString(s, default);
      if Equal(Str(s), default) {
        return Return(default);
      }
      match parseInt(s)
      case None => r := Raise(ValueError);
      case Some(n) => r := Return(Int(n));
    }

    /** `floatval`: as `intval`, with `float()` in place of `int()`. */
    method FloatVal(name: string, default: Value) returns (r: Outcome)
      modifies this
      ensures name !in old(args) ==> r == Return(default) && args == old(args)
      ensures name in old(args) ==>
        var a, i := old(args), IndexOf(old(args), name);
        if i + 1 >= |a| then r == Raise(IndexError) && args == a
        else
          args == DeleteSlice(a, i, 2) &&
          r == if default == Str(a[i + 1]) then Return(default)
               else if parseFloat(a[i + 1]).Some? then Return(Float(parseFloat(a[i + 1]).value))
               else Raise(ValueError)
    {
      var argstr := TakeString(name, NoneValue);
      if argstr.Raise? {
        return argstr;
      }
      if argstr.value == NoneValue {
        return Return(default);
      }
      var s := argstr.value.s;
      EqualToString(s, default);
      if Equal(Str(s), default) {
        return Return(default);
      }
      match parseFloat(s)
      case None => r := Raise(ValueError);
      case Some(x) => r := Return(Float(x));
    }

    /**
     * `floatpair`: the two numbers that follow the first occurrence of
     * `name`; exactly the name and those two operands are removed. Both
     * operands are read and converted before anything is removed, so a
     * missing or malformed operand leaves the list as it was.
     */
    method FloatPair(name: string, default: Value) returns (r: Outcome)
      modifies this
      ensures name !in old(args) ==> r == Return(default) && args == old(args)
      ensures name in old(args) ==>
        var a, i := old(args), IndexOf(old(args), name);
        if i + 1 >= |a| then r == Raise(IndexError) && args == a
        else if parseFloat(a[i + 1]).None? then r == Raise(ValueError) && args == a
        else if i + 2 >= |a| then r == Raise(IndexError) && args == a
        else if parseFloat(a[i + 2]).None? then r == Raise(ValueError) && args == a
        else
          r == Return(Pair(Float(parseFloat(a[i + 1]).value), Float(parseFloat(a[i + 2]).value))) &&
          args == DeleteSlice(a, i, 3)
      ensures r.Raise? ==> args == old(args)
    {
      if name in args {
        var i := IndexOf(args, name);
        if i + 1 >= |args| {
          return Raise(IndexError);
        }
        var val1 := parseFloat(args[i + 1]);
        if val1.None? {
          return Raise(ValueError);
        }
        if i + 2 >= |args| {
          return Raise(IndexError);
        }
        var val2 := parseFloat(args[i + 2]);
        if val2.None? {
          return Raise(ValueError);
        }
        args := DeleteSlice(args, i, 3);
        r := Return(Pair(Float(val1.value), Float(val2.value)));
      } else {
        r := Return(default);
      }
    }

    /**
     * `validint`: `int()` of the operand, which must be one of `validInts`
     * (when given); the process exits with -1 exactly when the option is
     * present, its operand is a number and that number is not valid. An
     * absent option gives `default`, which is not checked.
     */
    method ValidInt(name: string, default: Value, validInts: Option<seq<Value>>) returns (r: Outcome)
      modifies this
      ensures name !in old(args) ==> r == Return(default) && args == old(args)
      ensures name in old(args) ==>
        var a, i := old(args), IndexOf(old(args), name);
        if i + 1 >= |a| then r == Raise(IndexError) && args == a
        else
          args == DeleteSlice(a, i, 2) &&
          match parseInt(a[i + 1])
          case None => r == Raise(ValueError)
          case Some(n) => r == if IsValid(Int(n), validInts) then Return(Int(n)) else Exit(-1)
      ensures r.Exit? <==>
        && name in old(args)
        && IndexOf(old(args), name) + 1 < |old(args)|
        && parseInt(old(args)[IndexOf(old(args), name) + 1]).Some?
        && !IsValid(Int(parseInt(old(args)[IndexOf(old(args), name) + 1]).value), validInts)
      ensures r.Exit? ==> r.code == -1
    {
      var argstr := TakeString(name, NoneValue);
      if argstr.Raise? {
        return argstr;
      }
      if argstr.value == NoneValue {
        return Return(default);
      }
      match parseInt(argstr.value.s)
      case None => r := Raise(ValueError);
      case Some(n) =>
        if !IsValid(Int(n), validInts) {
          return Exit(-1);
        }
        r := Return(Int(n));
    }

    /**
     * `validstring`: the operand, or `default` when the option is absent; in
     * both cases a value other than None must be one of `validStrings` (when
     * given), so an invalid DEFAULT also ends the process with -1.
     */
    method ValidString(name: string, default: Value, validStrings: Option<seq<Value>>) returns (r: Outcome)
      modifies this
      ensures name !in old(args) ==>
        && args == old(args)
        && r == if default != NoneValue && !IsValid(default, validStrings) then Exit(-1) else Return(default)
      ensures name in old(args) ==>
        var a, i := old(args), IndexOf(old(args), name);
        if i + 1 >= |a| then r == Raise(IndexError) && args == a
        else
          args == DeleteSlice(a, i, 2) &&
          r == if IsValid(Str(a[i + 1]), validStrings) then Return(Str(a[i + 1])) else Exit(-1)
    {
      var argstr := TakeString(name, default);
      if argstr.Raise? {
        return argstr;
      }
      if argstr.value != NoneValue && !IsValid(argstr.value, validStrings) {
        return Exit(-1);
      }
      r := argstr;
    }

    /**
     * `floatstring`: `float()` of the operand when it converts; otherwise the
     * operand itself, which must then be one of `validStrings` (when given)
     * or the process exits with -1. An absent option gives `default`, which
     * is NOT checked. The option and its operand are consumed when present;
     * an option in last position raises IndexError before anything is removed.
     */
    method FloatString(name: string, default: Value, validStrings: Option<seq<Value>>) returns (r: Outcome)
      modifies this
      ensures name !in old(args) ==> r == Return(default) && args == old(args)
      ensures name in old(args) ==>
        var a, i := old(args), IndexOf(old(args), name);
        if i + 1 >= |a| then r == Raise(IndexError) && args == a
        else
          args == DeleteSlice(a, i, 2) &&
          match parseFloat(a[i + 1])
          case Some(x) => r == Return(Float(x))
          case None => r == if IsValid(Str(a[i + 1]), validStrings) then Return(Str(a[i + 1])) else Exit(-1)
    {
      var argstr := TakeString(name, NoneValue);
      if argstr.Raise? {
        return argstr;
      }
      if argstr.value == NoneValue {
        return Return(default);
      }
      var s := argstr.value.s;
      match parseFloat(s)
      case Some(x) => r := Return(Float(x));
      case None => r := if IsValid(Str(s), validStrings) then Return(Str(s)) else Exit(-1);
    }

    /**
     * `exitIfAnyUnparsedOptions`: ends the process with -1 exactly when some
     * remaining argument contains `--` anywhere in it, and returns None
     * otherwise; the argument list is only read.
     */
    function ExitIfAnyUnparsedOptions(): (r: Outcome)
      reads this
      ensures r == Exit(-1) || r == Return(NoneValue)
      ensures r.Exit? <==> exists k :: 0 <= k < |args| && Contains(args[k], "--")
    {
      if UnrecognizedOption(args).Some? then Exit(-1) else Return(NoneValue)
    }
  }
}
