# PolyTracker version extraction in Dafny

This project models `polytracker/_version.py`. That module reads PolyTracker's C
header `polytracker.h`, which defines the version macros:

```
#define POLYTRACKER_VERSION_MAJOR 4
#define POLYTRACKER_VERSION_MINOR 0
#define POLYTRACKER_VERSION_REVISION 0
#define POLYTRACKER_VERSION_SUFFIX "-dev"
```

From them it builds the version string `major.minor.revision[suffix]`.

`extract_version` works in three steps:

1. **Scan.** It matches every line of the header against one regular expression.
2. **Collect.** It keeps the last value of each recognised name: MAJOR, MINOR, REVISION and SUFFIX. It warns about any other `POLYTRACKER_VERSION_*` name, giving the 1-based line number.
3. **Validate.** It converts MAJOR, MINOR and REVISION with `int()`, in that order. It stops at the first one that is missing or not an integer. Then it normalises SUFFIX:
   - strip surrounding whitespace;
   - drop one quote from each end when the value is wrapped in `"`;
   - treat an empty result as no suffix.

`get_version_string` then joins the three numbers with `.` and appends the suffix.

## Layout

| file | module | models |
|---|---|---|
| `wrappers.dfy` | `Wrappers` | `Option` and `Result`, with early return through `:-` |
| `pytext.dfy` | `PyText` | the Python text primitives used: the whitespace set shared by `re`'s `\s` and `str.strip()`, `strip()`, `int()` on text and `str()` on integers |
| `define_line.dfy` | `DefineLine` | the regular expression `\s*#define\s+POLYTRACKER_VERSION_([A-Za-z_0-9]+)\s+([^\s]+)\s*$` under `re.match`, as a staged matcher; it is proved equal to the grammar in both directions |
| `extraction.dfy` | `Extraction` | `extract_version`: the specification functions `Table`, `Warnings` and `Validate`, and the imperative `ExtractVersion` proved equal to them |
| `extraction_facts.dfy` | `ExtractionFacts` | what `extract_version` promises, stated over those functions |
| `rendering.dfy` | `Rendering` | `get_version_string`, and a reading of the version string back into a version |
| `scenarios.dfy` | `Scenarios` | concrete headers and their outcomes |

### Design

**Results instead of exiting.** `sys.exit(1)` after a diagnostic becomes a `Failure(MissingMacro(name))` or `Failure(NotInteger(name))`. The warnings written to standard error become a returned list of `Warning(line, name)`.

**The header as lines.** The header arrives as its sequence of lines. A line may keep its trailing newline: the newline is whitespace, so the pattern's trailing `\s*` absorbs it, just as it does in Python.

**Two halves of the method.** `ExtractVersion` keeps the source's loop and its `version_parts` dictionary. It is split into two methods:
- `ScanLines`: the scanning loop;
- `CheckParts`: validation, which uses `CleanSuffix` for the suffix steps.

**Table and warnings from match results.** `Table` and `Warnings` are defined over the matcher's results, line by line (`Matches`). The facts about last-definition-wins and line numbering therefore do not depend on the matcher's internals.

**Signed numbers.** The numbers are whatever `int()` accepts, so they may carry a sign: `-1` and `+2` are valid, and `007` reads as 7. The model does not claim the numbers are non-negative, and neither does the code (`Scenarios.SignedNumbers`).

**Suffix and revision can merge.** The suffix is appended with no separator. A suffix that starts with a digit therefore runs into the revision: 1.2.3 with suffix `4` and 1.2.34 render alike (`Rendering.DigitSuffixAmbiguous`). Any other version is read back exactly from its string (`Rendering.RenderRoundTrip`).

## Model

| member | source | states |
|---|---|---|
| `PyText.TrimStart` | polytracker/_version.py:68 | the left half of `strip()`: what it drops is a whitespace prefix, and what it keeps does not start with whitespace |
| `PyText.TrimEnd` | polytracker/_version.py:68 | the right half of `strip()`: what it drops is a whitespace suffix, and what it keeps does not end with whitespace |
| `PyText.Strip` | polytracker/_version.py:68 | `str.strip()`; characterised by `StripIsTrim` and `StripUnchanged` |
| `PyText.StripIsTrim` | polytracker/_version.py:68 | `strip()` keeps a slice of its input; everything before and after that slice is whitespace; the slice neither starts nor ends with whitespace |
| `PyText.StripUnchanged` | polytracker/_version.py:68 | `strip()` leaves text alone when it neither starts nor ends with whitespace |
| `PyText.ParseInt` | polytracker/_version.py:57-58 | `int()` on text:<br>• it succeeds exactly on a non-empty run of ASCII digits, optionally after one `+` or `-`; anything else (`1a`, `1.0`, `0x1`, a lone sign) is the `ValueError` case<br>• digits read as their decimal value, negated after `-`<br>• a successful text has no whitespace |
| `PyText.NatToString` | polytracker/_version.py:89 | `str()` of a natural number is a non-empty run of decimal digits with no superfluous leading zero |
| `PyText.IntToString` | polytracker/_version.py:89 | `str()` of an integer is non-empty and has no whitespace; it is digits, with at most a leading `-` |
| `PyText.NatToStringValue` | polytracker/_version.py:89 | the digits `str()` writes denote the number written |
| `PyText.ParseIntToString` | polytracker/_version.py:57-58 | `int(str(n)) == n` for every integer `n` |
| `DefineLine.Match` | polytracker/_version.py:38-40 | a captured name is non-empty and made of `[A-Za-z_0-9]`; a captured value is non-empty and free of whitespace |
| `DefineLine.MatchSkipsLead` | polytracker/_version.py:39 | the leading `\s*` is skipped as a maximal run of whitespace |
| `DefineLine.MatchComplete` | polytracker/_version.py:38-40 | every line of the pattern's shape is matched, capturing its own name and value |
| `DefineLine.MatchSound` | polytracker/_version.py:38-40 | every matched line has the pattern's shape, with the captured name and value in their places |
| `DefineLine.MatchIff` | polytracker/_version.py:38-41 | the matcher captures `(name, value)` exactly when the line reads: optional whitespace, `#define`, whitespace, `POLYTRACKER_VERSION_`, the name, whitespace, the value, optional whitespace |
| `DefineLine.NoMatch` | polytracker/_version.py:38-41 | a line of any other shape is not matched, so it is skipped |
| `Extraction.Table` | polytracker/_version.py:34-48 | only MAJOR, MINOR, REVISION and SUFFIX ever become keys of `version_parts` |
| `Extraction.Warnings` | polytracker/_version.py:42-46 | every warning carries a line number from 1 to the number of lines |
| `Extraction.Field` | polytracker/_version.py:52-63 | one required field: `MissingMacro` when absent, `NotInteger` when `int()` rejects it, else its value; stated by `ValidateStopsAt` and `ValidateSucceeds` |
| `Extraction.RawSuffix` | polytracker/_version.py:66 | `version_parts.get("SUFFIX", None)`; its use is stated by `ValidateFields`, `ValidateSucceeds` and `StoredSuffix` |
| `Extraction.Validate` | polytracker/_version.py:51-79 | validation of the finished table: succeeds exactly when all three fields are present integers (`ValidateSucceeds`), else reports the first failing field (`ValidateStopsAt`) |
| `Extraction.Extract` | polytracker/_version.py:27-79 | `extract_version` as a function of the header's lines; computed by `ExtractVersion`, its properties are the `ExtractionFacts` rows |
| `Extraction.NormaliseSuffix` | polytracker/_version.py:66-72 | a suffix that survives normalisation is never empty |
| `Extraction.ValidateStopsAt` | polytracker/_version.py:51-63 | validation stops at the first of MAJOR, MINOR, REVISION that is missing or not an integer, and reports that field's error |
| `Extraction.ValidateFields` | polytracker/_version.py:51-79 | once all three fields are integers, the result is those three integers with the normalised suffix |
| `Extraction.ScanLines` | polytracker/_version.py:34-48 | the scanning loop builds exactly `Table` and emits exactly `Warnings` of the lines' match results |
| `Extraction.CleanSuffix` | polytracker/_version.py:65-72 | the step-by-step suffix handling computes `NormaliseSuffix` |
| `Extraction.CheckParts` | polytracker/_version.py:50-79 | the validation half returns exactly `Validate` of the table |
| `Extraction.ExtractVersion` | polytracker/_version.py:27-79 | `extract_version` returns `Extract(lines)` and emits `Warnings(Matches(lines))` |
| `ExtractionFacts.TableHasName` | polytracker/_version.py:41-48 | a name is in the table exactly when some line defines it and the name is recognised |
| `ExtractionFacts.TableLastWins` | polytracker/_version.py:48 | last definition wins: a name's entry is the value on the last line that defines it |
| `ExtractionFacts.TableEntryDefined` | polytracker/_version.py:48 | every table entry is the value of some define of that name |
| `ExtractionFacts.LastDefinitionWins` | polytracker/_version.py:37-48 | last definition wins, stated over the header's lines |
| `ExtractionFacts.WarningsSound` | polytracker/_version.py:42-46 | each warning points at a line that defines an unrecognised name, and carries that name |
| `ExtractionFacts.WarningsOrdered` | polytracker/_version.py:37-46 | warnings come in line order, at most one per line |
| `ExtractionFacts.WarningsComplete` | polytracker/_version.py:42-46 | each line that defines an unrecognised name gets a warning with its 1-based number (`i + 1`) and its name |
| `ExtractionFacts.WarningsEmpty` | polytracker/_version.py:42-46 | there is no warning exactly when no line defines an unrecognised name |
| `ExtractionFacts.ValidateSucceeds` | polytracker/_version.py:51-79 | validation succeeds exactly when MAJOR, MINOR and REVISION are all present and integers; the result then carries their values and the normalised suffix |
| `ExtractionFacts.SuffixCases` | polytracker/_version.py:66-72 | the suffix:<br>• is dropped exactly when the stripped value is empty, `"` or `""`<br>• loses one quote at each end when it is a longer quoted value<br>• otherwise passes through stripped |
| `ExtractionFacts.UnquoteQuoted` | polytracker/_version.py:69-70 | any non-empty text in quotes comes back as itself |
| `ExtractionFacts.PlainSuffixKept` | polytracker/_version.py:66-72 | an unquoted value with no surrounding whitespace is kept verbatim |
| `ExtractionFacts.StoredSuffix` | polytracker/_version.py:66-72 | a stored SUFFIX is already stripped; the suffix is absent exactly when SUFFIX is undefined or is `"` or `""` |
| `ExtractionFacts.TableSkipsUnmatched` | polytracker/_version.py:38-41 | a line the pattern rejects leaves the table unchanged |
| `ExtractionFacts.WarningsSkipUnmatched` | polytracker/_version.py:37-46 | a line the pattern rejects only renumbers the warnings after it, by one |
| `ExtractionFacts.InsertUnmatchedLine` | polytracker/_version.py:37-48 | inserting a non-matching line (a comment, another macro) keeps the result and only renumbers later warnings |
| `Rendering.Join` | polytracker/_version.py:89 | `".".join(...)`; what it produces for the three numbers is stated by `RenderShape` |
| `Rendering.Render` | polytracker/_version.py:88-94 | the version string is never empty |
| `Rendering.RenderShape` | polytracker/_version.py:88-94 | the version string is the three numbers as `str()` writes them, joined by `.`, with the suffix appended directly |
| `Rendering.VersionString` | polytracker/_version.py:82-94 | `get_version_string`:<br>• it succeeds exactly when extraction does<br>• on failure it reports the same error<br>• on success it is `str(major)`, `.`, `str(minor)`, `.`, `str(revision)` and the suffix, if any, with no separator: the format `major.minor.revision[suffix]` |
| `Rendering.RenderRoundTrip` | polytracker/_version.py:88-94 | a version whose suffix does not start with a digit is read back exactly from its string, including sign and suffix |
| `Rendering.DigitSuffixAmbiguous` | polytracker/_version.py:88-94 | two different versions can share one string: 1.2.3 with suffix `4` and 1.2.34 |
| `Rendering.VersionStringRoundTrip` | polytracker/_version.py:82-94 | the version string of a header reads back as the extracted version whenever the suffix does not start with a digit |
| `Scenarios.DefineOfMatches` | polytracker/_version.py:38-40 | `#define POLYTRACKER_VERSION_<name> <value>` is matched with that name and value |
| `Scenarios.PaddedDefine` | polytracker/_version.py:38-40 | whitespace before the directive, around the value and after it does not reach the captured value |
| `Scenarios.PlainVersion` | polytracker/_version.py:88-92 | MAJOR 1, MINOR 2 and REVISION 3 give version (1, 2, 3, none), rendered `1.2.3` |
| `Scenarios.QuotedSuffix` | polytracker/_version.py:66-72 | SUFFIX `"-rc1"` gives suffix `-rc1`, rendered `1.2.3-rc1` |
| `Scenarios.EmptyQuotedSuffix` | polytracker/_version.py:69-72 | SUFFIX `""` is the same as no suffix, rendered `1.2.3` |
| `Scenarios.MissingRevision` | polytracker/_version.py:51-56 | without REVISION the result is `MissingMacro("REVISION")`, and there is no version string |
| `Scenarios.MajorNotInteger` | polytracker/_version.py:57-63 | MAJOR `abc` gives `NotInteger("MAJOR")`, even with MINOR and REVISION missing |
| `Scenarios.UnexpectedMacro` | polytracker/_version.py:41-48 | `POLYTRACKER_VERSION_FOO bar` on line 2 yields one warning `(2, "FOO")`, and extraction still succeeds |
| `Scenarios.SignedNumbers` | polytracker/_version.py:57-58 | MAJOR `-1`, MINOR `+2` and REVISION `007` give (-1, 2, 7), rendered `-1.2.7` |
| `Scenarios.Redefinition` | polytracker/_version.py:48 | a second MAJOR replaces the first, with no warning |
| `Scenarios.CommentedHeader` | polytracker/_version.py:27-94 | the header text with MAJOR 1, a `/* comment */` line, MINOR 2 and REVISION 3 gives (1, 2, 3, none), `1.2.3` and no warning |

## Left out

- `get_polytracker_header` (lines 13-24) is not modelled: it locates the header file and exits when the file is missing. The model starts from the header's lines.
- Opening and reading the file (lines 36-37) is not modelled. Line splitting and newline translation belong to Python's file object.
- The text of the diagnostics is not modelled, and neither is the header path they name. The model keeps what they report: the failing macro, or the line number and name of an unexpected macro.
- `sys.exit(1)` is not modelled as the process ending: it becomes a `Failure` result.
- `__version__` (line 97) is not modelled: it is the module-level constant that holds `get_version_string()`.
- `PyText.ParseInt`: models `int()` only for an optional sign followed by ASCII digits. It rejects:
  - surrounding whitespace, which never reaches it, because a captured value has none;
  - underscores between digits, such as `1_000`, which `int()` accepts;
  - non-ASCII decimal digits, which `int()` accepts.
- `PyText.ParseInt`: has no limit on length. Since Python 3.11, and in the 3.7.14, 3.8.14, 3.9.14 and 3.10.7 security releases, `int()` raises `ValueError` on decimal text of more than 4300 digits (the default `sys.int_info.default_max_str_digits`). For such a value, line 58 reports "not an integer", while the model reads the number and validation succeeds.
- `PyText.IsSpace`: the whitespace set is fixed by the model as the characters `str.isspace()` accepts. The Unicode database itself is not modelled.
