# argv.py of bayer2ppm, modelled in Dafny

bayer2ppm converts raw Bayer-pattern sensor images to RGB images. Its command
line is read by `argv.py`, a small option parser that consumes its input.
Every lookup finds the first occurrence of an option name in `sys.argv` and
deletes it from the list. The flag test `exists` reads no operand. The other
lookups read one operand after the name (`floatpair` reads two) and delete
those too. Only `validint`, `validstring` and `floatstring` check the value
against an optional list of valid values, and an invalid value ends the
process with `sys.exit(-1)`. A last pass rejects any remaining argument that
contains `--`.

The model has two modules:

- `Py` (builtins.dfy) holds the Python built-ins the parser relies on.
  These are `list.index` (`IndexOf`), `del s[i:i+n]` (`DeleteSlice`), the
  substring test `pat in s` (`Contains`), `str.rfind` (`RFind`),
  `os.path.splitext` as `posixpath` defines it (`SplitExt`), and `sorted` on
  strings (`Sort`, with the string order `LexLe`).
- `Argv` (argv.dfy) models argv.py itself.
  - `Value` is a Python value used as a default, an operand or a result.
  - `Outcome` says how a call ends. `Return(v)` is a normal return and
    `Exit(-1)` is `sys.exit(-1)`. `Raise(IndexError)` and `Raise(ValueError)`
    are the exceptions argv.py lets through to its caller. `IndexError` comes
    from a missing operand: the option is the last argument, or for
    `floatpair` one of the last two. `ValueError` comes from an operand that
    `int()`/`float()` rejects.
  - `Equal` is Python's `==` on those values. An `int` and a `float` with the
    same value are equal; a string never equals a number.
  - The class `CommandLine` holds `sys.argv` as its field `args`. Each helper
    that deletes from the list is a method with `modifies this`. Its `ensures`
    give the result and the new list in terms of the old one.
  - Python's `int()` and `float()` on a string are the class constants
    `parseInt` and `parseFloat`. They are given to the constructor, and
    `None` stands for a rejected string. The model never computes with the
    parsed numbers.

## Model

| member | source | states |
|---|---|---|
| `Py.IndexOf` | argv.py:37-38 | `list.index` gives a position that holds the name, and no earlier position holds it |
| `Py.DeleteSlice` | argv.py:135 | deleting `n` elements at `i` keeps everything before `i` in place and shifts everything after down by `n`, in order. Exactly the deleted elements leave the multiset |
| `Py.DeleteFirstOccurrence` | argv.py:37-40 | removing the first occurrence of a flag removes one copy of it. The flag is still present afterwards iff it was given at least twice |
| `Py.Contains` | argv.py:119 | `"--" in arg` holds iff `--` occurs at some position of `arg`, not only at the start |
| `Py.RFind` | argv.py:27 | used via `os.path.splitext`: `rfind` gives -1 iff the character is absent. Otherwise it gives a position holding the character with none after it |
| `Py.SplitExt` | argv.py:27-29 | root + extension is the path. A non-empty extension starts with the only dot it contains and has no `/`. The extension is non-empty iff the final path component has a dot that comes after some non-dot character of that component |
| `Py.Extension` | argv.py:27 | the extension that `os.path.splitext(f)[1]` gives is a suffix of the path. When non-empty it starts with its only dot and contains no `/` |
| `Py.SplitExtLastDot` | argv.py:27-29 | `a.b.raw` splits at its last dot |
| `Py.SplitExtLeadingDot` | argv.py:27-29 | `.raw` has no extension |
| `Py.SplitExtDirectoryDot` | argv.py:27-29 | a dot in a directory name is not an extension |
| `Py.LexLe` | argv.py:28 | Python's `<=` on strings, the order `sorted` uses. A prefix comes before every extension of it |
| `Py.LexLeTotal` | argv.py:28 | any two strings are ordered one way or the other |
| `Py.LexLeTransitive` | argv.py:28 | the string order is transitive |
| `Py.LexLeAntisymmetric` | argv.py:28 | two strings ordered both ways are equal |
| `Py.Sort` | argv.py:28 | `sorted` gives an ascending rearrangement (a permutation) of the list |
| `Py.SortedUnique` | argv.py:28 | two ascending permutations of the same list are equal, so `Sort` agrees with Python's `sorted` |
| `Argv.Equal` | argv.py:142 | Python's `==` on the modelled values, as `in` applies it here and as the `argstr == default` test of `intval` and `floatval` applies it. Every value equals itself (no `nan` is modelled), an `int` equals a `float` of the same value, and tuples compare componentwise |
| `Argv.EqualSymmetric` | argv.py:142 | `==` is symmetric, also across `int` and `float` and inside tuples |
| `Argv.EqualToString` | argv.py:50 | the operand string equals the default only when the default is that same string |
| `Argv.Member` | argv.py:142 | `arg in validArgs` holds iff some element equals `arg` under Python `==` |
| `Argv.IsValid` | argv.py:140-146 | `None` accepts everything. A list accepts exactly its members |
| `Argv.UnrecognizedOption` | argv.py:119-121 | gives the first argument containing `--`. None of the earlier ones contains it, and there is none iff no argument contains `--` |
| `Argv.EmbeddedDashesReported` | argv.py:119-121 | an argument with `--` in its middle (`a--b`) is reported, and `-v` is not |
| `Argv.FilterByExtension` | argv.py:26-27 | keeps, in their original order, exactly the files whose extension is listed. Each kept file keeps its number of copies |
| `Argv.SelectFiles` | argv.py:26-28 | the listed-extension files with their multiplicities, or all files when no extensions are given. They are sorted when `sort` is set and otherwise a subsequence of the input |
| `Argv.StripExtensions` | argv.py:29 | one base name per file. Each base name followed by its file's extension gives the file name |
| `Argv.Filenames` | argv.py:26-30 | returns the listed-extension files, or all files when no extensions are given. They are sorted when `sort` is set and otherwise keep their order. Each base name plus its file's extension gives the file name |
| `Argv.CommandLine.Exists` | argv.py:32-42 | returns true iff the flag is in the list. Only its first occurrence is removed, so a repeated flag survives. On false the list is unchanged |
| `Argv.CommandLine.TakeString` | argv.py:131-138 | on a hit at first index `i`, returns `args[i+1]` and the list becomes `old[..i] + old[i+2..]`. On a miss it returns the default and the list is unchanged. An option in last position raises `IndexError` and leaves the list unchanged |
| `Argv.CommandLine.IntVal` | argv.py:44-51 | absent: the default, list unchanged. Option in last position: `Raise(IndexError)`, list unchanged. Otherwise name and operand are consumed. The result is the default when the operand string equals it, else `int()` of the operand, or `Raise(ValueError)` when `int()` rejects it |
| `Argv.CommandLine.FloatVal` | argv.py:53-60 | as `IntVal`, with `float()`: absent gives the default with the list unchanged, and last position gives `Raise(IndexError)` with the list unchanged. Otherwise name and operand are consumed, and the result is the default, `float()` of the operand, or `Raise(ValueError)` |
| `Argv.CommandLine.FloatPair` | argv.py:62-74 | on a hit, removes exactly the name and the two operands and returns their two `float()` values. Absent: the default with the list unchanged. A missing or malformed operand raises before any removal |
| `Argv.CommandLine.ValidInt` | argv.py:76-86 | absent: the default, unchecked, with the list unchanged. Option in last position: `Raise(IndexError)` with the list unchanged. Otherwise name and operand are consumed, and an operand that `int()` rejects gives `Raise(ValueError)`. It exits with -1 iff the option is present and its operand parses to a number that is not valid, and otherwise returns that number |
| `Argv.CommandLine.ValidString` | argv.py:88-97 | returns the operand, or the default when the option is absent (list unchanged). Either is checked, so an invalid non-None default also exits with -1. Option in last position: `Raise(IndexError)`, list unchanged. Otherwise name and operand are consumed |
| `Argv.CommandLine.FloatString` | argv.py:99-116 | absent: the default, unchecked. Present and numeric: the number. Present and not numeric: the string if it is valid, otherwise exit -1. Option in last position: `Raise(IndexError)`, list unchanged. Otherwise the name and operand are consumed whenever the option is present |
| `Argv.CommandLine.ExitIfAnyUnparsedOptions` | argv.py:118-123 | exits with -1 iff some remaining argument contains `--`, and returns None otherwise. The list is only read |

## Left out

- isptools.py is not part of this model. It is floating-point NumPy numerics: percentile black and white levels, `uint16` quantization, and the sRGB and Rec. 709 transfer curves.
- `filenames`, lines 23-25: the glob expansion, the file-existence check and the set-based de-duplication are file-system work, and their order is unspecified. `Filenames` takes the resulting list as its input.
- The `print` diagnostics of `_isValid` and `exitIfAnyUnparsedOptions` are not modelled. `UnrecognizedOption` gives the position of the argument that would be printed. `IsValid` drops the option name, which argv.py only prints.
- Process termination is not modelled. `sys.exit(-1)` is the outcome `Exit(-1)`; at the operating-system level this status reads as 255.
- How Python's `int()` and `float()` parse strings is not modelled. They are the parameters `parseInt` and `parseFloat`. Floats are reals, so `nan` and `inf` are outside the model.
- Python values other than None, strings, ints, floats and pairs are left out (booleans, lists and other types). So are valid-value collections other than lists: a string or a set given as `validArgs`, or a string given as `extensions`, would make `in` mean something else.
- Strings are sequences of Unicode scalar values, so a Dafny `char` cannot hold a lone surrogate. Python decodes `sys.argv` and the names `glob.glob` returns with `surrogateescape`, so an argument or file name that is not valid UTF-8 holds lone surrogates such as `'\udcff'`, and those are outside the model. Equality, the substring test and the code-point order are unaffected on the strings that can be represented.
- `Py.SplitExt` follows `posixpath`. The Windows variant, with `\` and drive letters, is not modelled.
