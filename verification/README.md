# flywheel: phrase-file reader and feedback renderer, modelled in Dafny

This project models two parts of the flywheel vocabulary drill.

1. **The phrase-file reader** is `FileOperations.read_phrases`. A phrase file has one
   record per line: `source || target`. A `|` inside the target lists
   alternative translations. A `|` inside the source lists alternative source
   phrases, and each of them is bound to the same translation. Lines that
   start with `#` and lines without `||` are ignored. Lines with more than one
   `||` are reported and skipped. A later line overwrites an earlier binding
   for the same phrase. The model treats the file as a sequence of lines and
   the result as a `map` from phrase to `Translation` (`Single` or `Multi`).
   It also defines the Python string operations that the reader relies on:
   `sub in s`, `s.find`, `s.split(sep)`, `sep.join` and `s.strip()`.
2. **The feedback screen of a quiz round** is `UiOperations.user_session` and
   `UiOperations._print_colored_diff`. The similarity score picks one of four
   tiers through a threshold cascade. Each tier prints a different screen.
   The diff prints every reference character as a coloured token, with a
   special rule for wrong spaces. Console output is modelled as a returned
   sequence of `(colour, char)` tokens.

Modules:

- `PyStr` (`pystr.dfy`): the Python string operations.
- `Phrases` (`phrases.dfy`): the line parser and the reader.
- `Diff` (`diff.dfy`): diff rendering.
- `Session` (`session.dfy`): the tier cascade and the round's screen.

Parameters in place of code that is not part of this model:

- The similarity score and the best translation, both from `find_max_string_similarity`.
- The correction mask, from `find_user_mistakes`.
- The thresholds `level_excellent`, `level_good` and `level_mediocre`.

These come from `data_level.DataOperations`, and `Code/data_level.py` is not
part of this model. Scores and thresholds are `real`s. The learner's answer,
read with `input()` (Code/ui_level.py:12), only feeds the scorer and the
mask, so no member takes it.

Two points about what the code does:

- A translation is stored either as one string or as a list of strings. It is
  not always a list.
- The diff indexes the mask position by position against the reference. It
  reads `correction[i]` for every reference index, so the mask must be at
  least as long as the reference. This is a `requires` of `Diff.Render`. For
  `UserSession`, it is required only in the two tiers that print the diff.

## Model

| member | source | states |
|---|---|---|
| PyStr.Find | Code/system_level.py:30 | `s.find(sub, start)` returns -1 exactly when `sub` does not occur at or after `start`. Otherwise it returns an occurrence with no earlier occurrence from `start` on. `s.split` uses this search to find each cut. |
| PyStr.Split | Code/system_level.py:30 | `s.split(sep)` returns at least one part. Joining the parts with `sep` gives back `s`. No part contains `sep`. There are two or more parts exactly when `s` contains `sep`. Each cut is at the leftmost occurrence: no occurrence of `sep` starts inside a part that is followed by a cut. |
| PyStr.FindIffContains | Code/system_level.py:29 | For any `sub`, `sub in s` holds exactly when `s.find(sub)` is not -1. So the `'\|\|' in string` test at line 29 is the same search that `split` uses. |
| PyStr.StripBy | Code/system_level.py:30 | Stripping by a character class scans forward past leading members of the class and backward past trailing ones. The result is the slice between the two scans. It neither starts nor ends with a member, and everything removed is a member. |
| PyStr.StripByUnique | Code/system_level.py:30 | Let `s` be a prefix of class members, then a core that neither starts nor ends with a member, then a suffix of members. Stripping `s` by that class gives exactly the core. |
| PyStr.Strip | Code/system_level.py:30 | `s.strip()` is a substring of `s`. The removed prefix and suffix are all whitespace. The result neither starts nor ends with whitespace. |
| PyStr.StripUnique | Code/system_level.py:30 | Let `s` be a whitespace-only prefix, then a core with no whitespace at either end, then a whitespace-only suffix. Then `s.strip()` is exactly that core. |
| PyStr.StripIdempotent | Code/system_level.py:30 | Stripping twice gives the same result as stripping once. |
| PyStr.StripAvoids | Code/system_level.py:40 | Stripping cannot create a substring that the input lacks. So a stripped alternative never contains `\|`. |
| PyStr.StripAll | Code/system_level.py:30 | `list(map(str.strip, parts))` has one stripped element per part, in order. |
| Phrases.Alternatives | Code/system_level.py:40 | Splitting on `\|` and stripping gives one alternative per piece. Each alternative has no surrounding whitespace and no `\|`. |
| Phrases.TargetValue | Code/system_level.py:39-40 | A target containing `\|` is stored as `Multi` with the in-order stripped alternatives (at least two). Any other target is stored as `Single`, the stripped target itself. |
| Phrases.SourceKeys | Code/system_level.py:42-48 | A source containing `\|` gives one key per stripped alternative. Any other source gives the single key. Every key is clean. |
| Phrases.ParseLine | Code/system_level.py:29-48 | A line is ignored exactly when it starts with `#` or lacks `\|\|`. A record is rejected exactly when it splits into more than two parts, and the part count is reported. Otherwise it has exactly two parts. The keys come from the stripped first part and the value from the stripped second part. The keys and the value are clean. |
| Phrases.BindAll | Code/system_level.py:44-45 | After binding, every listed key maps to the value. Every other key keeps its entry. No other key appears. |
| Phrases.Outcomes | Code/system_level.py:28-48 | There is one outcome per line, in file order. Each outcome satisfies the clean-text invariant. |
| Phrases.Fold | Code/system_level.py:28-48 | Applying outcomes that all satisfy the clean-text invariant gives a mapping that satisfies it too. |
| Phrases.ReadPhrases | Code/system_level.py:22-52 | No input gives the empty mapping. No key and no stored string has surrounding whitespace or contains `\|`. Every `Multi` has at least two alternatives. |
| Phrases.Rejections | Code/system_level.py:32-35 | There are at most as many reports as lines. Each report names a line of the input with more than two `\|\|`-parts, together with that part count. |
| Phrases.RejectedAt | Code/system_level.py:32-35 | The rejected positions are listed in increasing order. Each listed position is a rejection, and every rejection is listed. |
| Phrases.ReportsFilter | Code/system_level.py:32-35 | The reports are exactly the rejected positions, in order, each with its line and its part count. |
| Phrases.RejectionsFilter | Code/system_level.py:28-35 | Reading a file reports exactly its rejected lines, in file order, one report each, with its part count. |
| Phrases.EveryRejectionReported | Code/system_level.py:32-35 | Every line with more than two `\|\|`-parts is reported, with its part count. |
| Phrases.BindKeys | Code/system_level.py:44-45 | The source's inner loop over the source alternatives computes `BindAll`. |
| Phrases.LoadPhrases | Code/system_level.py:24-52 | The source's loop over the lines returns the mapping `ReadPhrases` describes and the reports `Rejections` describes. |
| Phrases.ReadOneMore | Code/system_level.py:28 | Reading one more line applies that line's outcome to the mapping so far and appends its report, if any. |
| Phrases.ReadAppend | Code/system_level.py:28 | Lines are processed in order: the last line's outcome is applied to the mapping of the lines before it. |
| Phrases.SkippedLineKeepsMapping | Code/system_level.py:29-35 | A comment, a line without `\|\|`, or a line with more than two parts leaves the mapping unchanged. |
| Phrases.RecordLineOverwrites | Code/system_level.py:42-48 | An accepted line binds each of its keys to its value, overwriting earlier bindings. Keys the line does not name keep their presence and their value. |
| Phrases.FoldProvenance | Code/system_level.py:28-48 | A key is in the folded mapping exactly when some outcome binds it. |
| Phrases.FoldLastBinding | Code/system_level.py:45-48 | A key of the folded mapping has a last outcome that binds it, and its value is that outcome's value. |
| Phrases.KeyProvenance | Code/system_level.py:24-48 | A phrase is in the result exactly when some line of the file binds it. |
| Phrases.LastBindingWins | Code/system_level.py:28-48 | A phrase in the result has a last line that binds it, and its stored translation is the one that line gives. Later lines with the same phrase as a source overwrite earlier ones. |
| Diff.Emit | Code/ui_level.py:39-50 | Each reference position prints at most one token. It prints none exactly when it is a wrong space at the first or last position. The token is green exactly when the position is flagged right, and red otherwise. The printed character is the reference character, except that a wrong space may print as an underscore. |
| Diff.RenderUpTo | Code/ui_level.py:39-50 | The first `n` positions print `n` tokens minus the dropped positions among them. Every token is green or red. |
| Diff.PrintColoredDiff | Code/ui_level.py:37-50 | The source's loop prints exactly the tokens of `Render`. |
| Diff.TokenOfPosition | Code/ui_level.py:39-50 | A position that prints a token places it at its own index, less the number of dropped positions before it. |
| Diff.DroppedBeforeIsLead | Code/ui_level.py:43 | Below the last position, only the first position can be dropped. |
| Diff.TokenCount | Code/ui_level.py:42-43 | The number of tokens is the length of the reference minus the wrong spaces at its two ends. |
| Diff.RenderedPositions | Code/ui_level.py:39-50 | The token for reference position `i` has index `i` minus one if the first position was dropped. A flagged position prints its character in green. A wrong non-space prints its character in red. A wrong interior space prints a red `_` when both neighbours are flagged, and a red space otherwise. |
| Diff.AllCorrectEchoesReference | Code/ui_level.py:39-41 | With every position flagged right, the printed text is the reference and every token is green. |
| Session.Classify | Code/ui_level.py:16-26 | Exactly one tier is chosen. It is the first of excellent, good and mediocre whose threshold the score reaches, and Wrong when the score reaches none. |
| Session.UserSession | Code/ui_level.py:10-34 | The round returns the score and the best translation unchanged. Its tier is the cascade's tier. An Excellent screen prints nothing in red. |
| Session.ClassifyMonotone | Code/ui_level.py:16-26 | A higher score never gets a lower tier, whatever the thresholds. |
| Session.ShadowedTiers | Code/ui_level.py:16-22 | Good is unreachable when its threshold is at or above the excellent one. Mediocre is unreachable when its threshold is at or above the good one. |
| Session.ExcellentIgnoresAnswer | Code/ui_level.py:16-17 | The Excellent screen reads "Correct!". It does not depend on the best translation or on the mask. |
| Session.WrongShowsWholeAnswer | Code/ui_level.py:26-30 | The Wrong screen shows "Wrong. Right answer is: " followed by the whole best translation. It does not depend on the mask. |
| Session.DiffTiersShowDiff | Code/ui_level.py:18-25 | The Good screen starts with "Almost correct. Right answer is: " and the Mediocre screen with "Not bad. Right answer is: ", both in the plain colour. The rest of the screen is exactly the diff of the best translation against the mask. The diff has one coloured token per character, minus the wrong spaces at the ends. A fully correct mask shows the translation verbatim. |

## Left out

- `FileOperations.find_or_create_file` (Code/system_level.py:8-19) is left out. It checks whether files exist, walks directories and creates files, which is pure I/O.
- `read_json_from_file` and `save_json_to_file` (Code/system_level.py:55-74) are left out. They are thin wrappers over the `json` library and file handles.
- In `read_phrases`, opening the file, the catch-all `except` and the `print` calls are left out. Lines are a parameter. Each rejected line is returned as a `LineError` record instead of being printed.
- Phrases.ReadPhrases: requires every line to be non-empty, because iterating over a file never yields an empty line. On an empty line, Python's `string[0]` would raise, and the catch-all handler would end the read early.
- Phrases.ReadPhrases: a Python `dict` remembers insertion order and a `map` does not, so the order of the returned keys is not modelled.
- PyStr.Split: requires a non-empty separator. Python raises `ValueError` for an empty one, and the source only splits on `||` and `|`.
- The similarity score, the best translation and the correction mask are parameters. They come from `data_level.DataOperations`, and `Code/data_level.py` is not part of this model. So are the `level_*` thresholds.
- Session.Classify: scores are `real`, not floating point. A NaN score, which Python would classify as Wrong, is not modelled.
- The `input()` prompt, the colorama escape codes and the `os.linesep` line breaks are left out. Colours are abstract `Colour` values, and `Plain` stands for `Fore.RESET`. The final `print(Fore.RESET)` shows no characters and is not modelled.
