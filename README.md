# KiCad PCB model-path rewriter

This is a Dafny model of `fix_kicad_pcb_paths`. The function rewrites the
absolute 3D-model paths in a KiCad board file into project-relative ones.

Each line of the input is searched for the leftmost `(path "<value>")`, where
`<value>` is one or more characters other than `"`. On a match:

1. Every `\` in the value is turned into `/`.
2. The part after the last `/` is kept as the filename.
3. The new path `${KIPRJMOD}/<folder>/<filename>` is built.
4. Every occurrence of the old value in the line is replaced by the new path,
   as Python's `str.replace` does.

Lines without a match are copied unchanged. The output file is named
`base + "_fixed" + ext`, where `base` and `ext` come from `os.path.splitext`.
The number of lines that came out different is counted.

The modules are:

- `Text`: an `Option` type, substring occurrence, and `str.replace` for a
  non-empty pattern (`Replace`), with lemmas describing its left-to-right,
  non-overlapping scan.
- `PathNames`: backslash normalisation, `posixpath.basename`, the filename
  taken from a model path, `str.rfind`, `posixpath.splitext` and the output
  file name.
- `Rewrite`: the one fixed regular expression and the per-line rewrite. The
  regular expression is modelled by hand: `PathAt` says it matches at an
  index, `MatchAt` tries one index, and `Search` is `re.search`.
- `Fix`: the driver. `FixLine` is the loop body. `FixKicadPcbPaths` is the
  loop over the lines, with the output and the counter under loop invariants.
  It is specified against `RewriteAll` and `CountChanged`.

Behaviour of the code that the model keeps as it is:

- `line.replace(old_path, new_path)` acts on the whole line. So every
  occurrence of the captured value is replaced, including one before or
  inside the matched `(path "` (`Rewrite.RewriteFirstOccurrence`). The
  surrounding text is kept verbatim only when the value occurs once in the
  line (`Rewrite.RewriteMatchedOnce`, `Rewrite.RewritePlainName`).
- The shapes folder is not checked: an empty folder name is used as it is.
- A value ending in a separator yields an empty filename, and the new path
  is then `${KIPRJMOD}/<folder>/`.
- A missing input prints a message and returns without writing anything; the
  model returns `InputMissing`.

## Model

| member | source | states |
|---|---|---|
| Text.Replace | fix.py:52 | `str.replace` for a non-empty pattern; specified by ReplaceAbsent, ReplaceLeftmost, ReplaceFirst, ReplaceOnce and ReplaceBySelf |
| Text.ReplaceAbsent | fix.py:52 | a line in which the old value does not occur is left as it is by `str.replace` |
| Text.ReplaceKeepsPrefix | fix.py:52 | text before the first occurrence of the pattern is copied verbatim |
| Text.ReplaceLeftmost | fix.py:52 | for `s = a + pat + c` with no earlier occurrence, the result is `a + rep` followed by the replace of `c` (the scan resumes after the occurrence, so occurrences never overlap) |
| Text.ReplaceFirst | fix.py:52 | the same, stated for the first occurrence at index `p` of a string |
| Text.ReplaceOnce | fix.py:52 | when the pattern occurs only at `p`, everything before and after it is preserved verbatim |
| Text.ReplaceBySelf | fix.py:52 | replacing a pattern by itself returns the string unchanged |
| Text.ReplaceChar | fix.py:46 | a one-character replace keeps the length and maps each position, `a` to `b` and everything else to itself |
| PathNames.Normalize | fix.py:46 | `replace('\\', '/')` keeps the length, turns each backslash into `/` and leaves every other character alone |
| PathNames.Basename | fix.py:46 | the basename is a suffix of the path, holds no `/`, and is either the whole path or preceded by `/` |
| PathNames.FileName | fix.py:46 | the filename kept from a model path, `basename` after normalising `\` to `/`; specified by FileNameIsLastSegment, FileNameOfPlainName and FileNameAfterSeparator |
| PathNames.FileNameIsLastSegment | fix.py:46 | the filename is a suffix of the value that contains neither `/` nor `\`, and is either the whole value or preceded by a separator |
| PathNames.FileNameOfPlainName | fix.py:46 | a value containing no separator is its own filename |
| PathNames.FileNameAfterSeparator | fix.py:46 | a separator-free name right after a separator is the filename |
| PathNames.LastIndex | fix.py:26 | `rfind`: the index of the last occurrence of a character, or -1 when there is none |
| PathNames.BasenameAfterLastSlash | fix.py:26 | the final component seen by `splitext` is what follows the last `/` |
| PathNames.SplitExt | fix.py:26 | `os.path.splitext` of the input name; specified by SplitExtJoin, SplitExtShape, SplitExtNonEmptyIff and SplitExtSpec |
| PathNames.SplitExtJoin | fix.py:26 | `base + ext` is the input name |
| PathNames.SplitExtShape | fix.py:26 | a non-empty extension is a dot followed by text holding no dot and no `/` |
| PathNames.SplitExtNonEmptyIff | fix.py:26 | the extension is non-empty exactly when some dot of the final component follows a non-dot character, so leading dots alone give no extension |
| PathNames.SplitExtSpec | fix.py:26 | all three `splitext` properties above together |
| PathNames.OutputName | fix.py:27 | the output file name `base + "_fixed" + ext`; specified by OutputNameSpec |
| PathNames.OutputNameSpec | fix.py:26-27 | the output name places `_fixed` between base and extension, and at the very end when the final component has no extension |
| Rewrite.PathAt | fix.py:33 | the pattern `\(path "([^"]+)"\)` matches at an index with a given group; specified by PathAtDetermined and PathAtUnique |
| Rewrite.QuoteFrom | fix.py:33 | the index of the first `"` at or after `k`, with no `"` before it |
| Rewrite.PathAtDetermined | fix.py:33 | a match at index `i` captures exactly the run of non-quote characters after `(path "` |
| Rewrite.PathAtUnique | fix.py:33 | the pattern captures at most one value at a given index |
| Rewrite.MatchAt | fix.py:33 | trying the pattern at one index returns the captured value exactly when the pattern matches there |
| Rewrite.SearchFrom | fix.py:41 | the first match at or after `k`, with none before it; none when there is no match from `k` on |
| Rewrite.Search | fix.py:41-43 | `re.search` returns the leftmost match, whose value is non-empty and quote-free, or none when the line has no match anywhere |
| Rewrite.SearchFindsLeftmost | fix.py:41-43 | any leftmost match is the one the search returns |
| Rewrite.NewPath | fix.py:49 | the replacement path `${KIPRJMOD}/<folder>/<filename>`; its literal form is stated by RewriteMatched |
| Rewrite.RewriteLine | fix.py:41-59 | the line written for one input line; specified by RewriteUnmatched, RewriteMatched, RewriteMatchedOnce, RewritePlainName, RewriteFirstOccurrence and RewriteAlreadyRelative |
| Rewrite.RewriteUnmatched | fix.py:57-59 | a line with no match is written unchanged |
| Rewrite.RewriteMatched | fix.py:43-52 | a matched line becomes the line with every occurrence of the leftmost captured value replaced by `"${KIPRJMOD}/" + folder + "/" + filename` |
| Rewrite.RewriteMatchedOnce | fix.py:52 | when the captured value occurs only inside the match, the text around it is preserved verbatim |
| Rewrite.RewritePlainName | fix.py:46-52 | a lone separator-free value `X` becomes `${KIPRJMOD}/<folder>/X` in place |
| Rewrite.RewriteFirstOccurrence | fix.py:52 | the first occurrence of the value anywhere in the line is replaced first, even one outside the match |
| Rewrite.RewriteAlreadyRelative | fix.py:46-56 | a path already of the form `${KIPRJMOD}/<folder>/<name>` with a separator-free name leaves the line unchanged |
| Fix.CountChanged | fix.py:55-56 | the number of changed lines is at most the line count; what it counts is stated by CountChangedIsDifferingPositions and CountChangedZeroIff |
| Fix.CountChangedAppend | fix.py:55-56 | one more line pair adds one to the count exactly when the two lines differ |
| Fix.CountChangedZeroIff | fix.py:55-56 | the count is zero exactly when output and input are equal |
| Fix.CountChangedIsDifferingPositions | fix.py:34 | the count is the size of the set of positions where output and input differ |
| Fix.RewriteAll | fix.py:39-59 | the rewritten file has one line per input line; which line goes where is stated by RewriteAllLines and RewriteAllAppend |
| Fix.RewriteAllAppend | fix.py:39-59 | rewriting one more input line appends its rewritten form, in order |
| Fix.RewriteAllLines | fix.py:39-59 | line `i` of the output is input line `i` rewritten |
| Fix.LoopStep | fix.py:39-59 | one iteration keeps both loop invariants: the output is the rewritten prefix, and the counter counts the changed lines in it |
| Fix.FixLine | fix.py:41-59 | the loop body writes the rewritten line, and reports a change exactly when it differs from the input line, which can happen only on a match |
| Fix.FixKicadPcbPaths | fix.py:14-62 | a missing input writes nothing; otherwise the output name comes from `splitext`, the output is the rewritten input line by line, and `lines_changed` counts the differing lines, never more than the line count |

## Left out

- Whether the input exists (`os.path.exists`) is a boolean parameter: the file system is not modelled.
- Opening, reading and writing files, and UTF-8 decoding and encoding, are not modelled. The input and output are sequences of lines. Each line is opaque text, including any line terminator that Python's line iteration keeps.
- The `print` diagnostics and progress messages are not modelled. They produce no data the function returns.
- Python's general regular-expression engine is not modelled. Only the one fixed pattern `\(path "([^"]+)"\)` is, by hand.
- `os.path.basename` and `os.path.splitext` follow POSIX semantics (`posixpath`). The Windows variants (`ntpath`, drive letters, `\` as a second separator in `splitext`) are not modelled. The filename is taken after `\` has already become `/`.
- `Text.Replace`: `str.replace` with an empty pattern is not modelled. It cannot arise here, because the captured value is never empty.
- The configuration constants and the `__main__` entry point are not modelled. The input name and the shapes folder are parameters.
