/**
 * `extract_version`: scan the header's lines for `POLYTRACKER_VERSION_*`
 * defines, keep the last value of each of the four recognised names, warn
 * about any other name, then validate MAJOR, MINOR and REVISION in that
 * order and normalise the optional SUFFIX.
 *
 * `Table`, `Warnings` and `Validate` specify the three stages as functions;
 * `ExtractVersion` is the imperative procedure, proved equal to them.
 */
module Extraction {
  import opened Wrappers
  import opened PyText
  import opened DefineLine

  /** The extracted version; the three numbers are whatever `int()` read, sign included. */
  datatype Version = Version(major: int, minor: int, revision: int, suffix: Option<string>)

  /** The two fatal conditions, each naming the macro (without its prefix) that caused it. */
  datatype ExtractError = MissingMacro(name: string) | NotInteger(name: string)

  /** A non-fatal warning: the 1-based line number and the unexpected name. */
  datatype Warning = Warning(line: nat, name: string)

  /** The required names, in the order they are validated. */
  const Required: seq<string> := ["MAJOR", "MINOR", "REVISION"]

  predicate IsRecognised(name: string) {
    name == "MAJOR" || name == "MINOR" || name == "REVISION" || name == "SUFFIX"
  }

  /** The matcher's verdict on every line, in order. */
  function Matches(lines: seq<string>): (ms: seq<Option<Define>>)
    ensures |ms| == |lines|
    ensures forall i :: 0 <= i < |lines| ==> ms[i] == Match(lines[i])
  {
    seq(|lines|, i requires 0 <= i < |lines| => Match(lines[i]))
  }

  /** The matched define of a recognised name `name`: a line that sets the table entry. */
  predicate Records(m: Option<Define>, name: string) {
    m.Some? && m.value.name == name && IsRecognised(name)
  }

  /** The matched define of a name that is not recognised: a line that is warned about. */
  predicate Unexpected(m: Option<Define>) {
    m.Some? && !IsRecognised(m.value.name)
  }

  /**
   * The name-to-value table after reading the matched lines in order: a
   * define of a recognised name sets that entry, overwriting an earlier one.
   */
  function Table(ms: seq<Option<Define>>): (t: map<string, string>)
    ensures forall name :: name in t ==> IsRecognised(name)
  {
    if ms == [] then map[]
    else
      var t := Table(ms[..|ms| - 1]);
      var m := ms[|ms| - 1];
      if m.Some? && IsRecognised(m.value.name) then t[m.value.name := m.value.value] else t
  }

  /** The warnings emitted while reading the matched lines, in line order, numbered from 1. */
  function Warnings(ms: seq<Option<Define>>): (ws: seq<Warning>)
    ensures forall k :: 0 <= k < |ws| ==> 1 <= ws[k].line <= |ms|
  {
    if ms == [] then []
    else
      var earlier := Warnings(ms[..|ms| - 1]);
      var m := ms[|ms| - 1];
      if m.Some? && !IsRecognised(m.value.name) then earlier + [Warning(|ms|, m.value.name)] else earlier
  }

  /** One more matched line: the table and the warnings after it, from those before it. */
  lemma ReadOneMore(ms: seq<Option<Define>>, i: nat)
    requires i < |ms|
    ensures Table(ms[..i + 1]) ==
              if ms[i].Some? && IsRecognised(ms[i].value.name) then Table(ms[..i])[ms[i].value.name := ms[i].value.value] else Table(ms[..i])
    ensures Warnings(ms[..i + 1]) ==
              if Unexpected(ms[i]) then Warnings(ms[..i]) + [Warning(i + 1, ms[i].value.name)] else Warnings(ms[..i])
  {
    assert ms[..i + 1][..i] == ms[..i];
  }

  /** One required field: missing, not an integer, or its value. */
  function Field(t: map<string, string>, name: string): Result<int, ExtractError> {
    if name !in t then Failure(MissingMacro(name))
    else
      match ParseInt(t[name])
      case None => Failure(NotInteger(name))
      case Some(n) => Success(n)
  }

  /**
   * The suffix handling: strip whitespace, drop one quote from each end when
   * the value both starts and ends with `"`, and treat an empty result as
   * no suffix at all.
   */
  function NormaliseSuffix(raw: Option<string>): (r: Option<string>)
    ensures r.Some? ==> r.value != []
  {
    match raw
    case None => None
    case Some(s) =>
      var stripped := Strip(s);
      var unquoted :=
        if |stripped| > 0 && stripped[0] == '"' && stripped[|stripped| - 1] == '"' then
          (if |stripped| >= 2 then stripped[1..|stripped| - 1] else [])
        else stripped;
      if unquoted == [] then None else Some(unquoted)
  }

  /** The table's raw SUFFIX entry, if any. */
  function RawSuffix(t: map<string, string>): Option<string> {
    if "SUFFIX" in t then Some(t["SUFFIX"]) else None
  }

  /** Validation of a finished table: MAJOR, MINOR, REVISION in that order, then the suffix. */
  function Validate(t: map<string, string>): Result<Version, ExtractError> {
    var major :- Field(t, "MAJOR");
    var minor :- Field(t, "MINOR");
    var revision :- Field(t, "REVISION");
    Success(Version(major, minor, revision, NormaliseSuffix(RawSuffix(t))))
  }

  /** Validation stops at the first required field that fails, and reports that field's error. */
  lemma ValidateStopsAt(t: map<string, string>, k: nat)
    requires k < |Required| && Field(t, Required[k]).Failure?
    requires forall j :: 0 <= j < k ==> Field(t, Required[j]).Success?
    ensures Validate(t) == Failure(Field(t, Required[k]).error)
  {
    if k == 1 {
      assert Field(t, Required[0]).Success?;
    } else if k == 2 {
      assert Field(t, Required[0]).Success? && Field(t, Required[1]).Success?;
    }
  }

  /** Validation once all three required fields have been read into `numbers`. */
  lemma ValidateFields(t: map<string, string>, numbers: map<string, int>)
    requires forall j :: 0 <= j < |Required| ==> Required[j] in numbers && Field(t, Required[j]) == Success(numbers[Required[j]])
    ensures "MAJOR" in numbers && "MINOR" in numbers && "REVISION" in numbers
    ensures Validate(t) == Success(Version(numbers["MAJOR"], numbers["MINOR"], numbers["REVISION"], NormaliseSuffix(RawSuffix(t))))
  {
    assert Field(t, Required[0]) == Success(numbers[Required[0]]);
    assert Field(t, Required[1]) == Success(numbers[Required[1]]);
    assert Field(t, Required[2]) == Success(numbers[Required[2]]);
  }

  /** The whole extraction as a function of the header's lines. */
  function Extract(lines: seq<string>): Result<Version, ExtractError> {
    Validate(Table(Matches(lines)))
  }

  /**
   * The scanning loop of `extract_version`: every line goes through the
   * matcher; an unexpected name is warned about with its 1-based line
   * number, a recognised one overwrites its table entry.
   */
  method ScanLines(lines: seq<string>) returns (parts: map<string, string>, warnings: seq<Warning>)
    ensures parts == Table(Matches(lines))
    ensures warnings == Warnings(Matches(lines))
  {
    ghost var ms := Matches(lines);
    parts := map[];
    warnings := [];
    for i := 0 to |lines|
      invariant parts == Table(ms[..i])
      invariant warnings == Warnings(ms[..i])
    {
      var m := Match(lines[i]);
      assert m == ms[i];
      ReadOneMore(ms, i);
      if m.Some? {
        if !IsRecognised(m.value.name) {
          warnings := warnings + [Warning(i + 1, m.value.name)];
        } else {
          parts := parts[m.value.name := m.value.value];
        }
      }
    }
    assert ms[..|lines|] == ms;
  }

  /** The suffix handling, step by step as the source reassigns `suffix`. */
  method CleanSuffix(raw: Option<string>) returns (suffix: Option<string>)
    ensures suffix == NormaliseSuffix(raw)
  {
    if raw.None? {
      return None;
    }
    var s := Strip(raw.value);
    if |s| > 0 && s[0] == '"' && s[|s| - 1] == '"' {
      s := if |s| >= 2 then s[1..|s| - 1] else [];
    }
    suffix := if s == [] then None else Some(s);
  }

  /**
   * The validation half of `extract_version`: convert MAJOR, MINOR and
   * REVISION with `int()` in that order, stopping at the first that is
   * missing or not an integer, then normalise SUFFIX step by step.
   */
  method CheckParts(parts: map<string, string>) returns (result: Result<Version, ExtractError>)
    ensures result == Validate(parts)
  {
    var numbers: map<string, int> := map[];
    for k := 0 to |Required|
      invariant forall j :: 0 <= j < k ==> Required[j] in numbers && Field(parts, Required[j]) == Success(numbers[Required[j]])
    {
      var name := Required[k];
      if name !in parts {
        result := Failure(MissingMacro(name));
        ValidateStopsAt(parts, k);
        return;
      }
      var n := ParseInt(parts[name]);
      if n.None? {
        result := Failure(NotInteger(name));
        ValidateStopsAt(parts, k);
        return;
      }
      numbers := numbers[name := n.value];
    }
    ValidateFields(parts, numbers);
    var suffix := CleanSuffix(if "SUFFIX" in parts then Some(parts["SUFFIX"]) else None);
    result := Success(Version(numbers["MAJOR"], numbers["MINOR"], numbers["REVISION"], suffix));
  }

  /**
   * `extract_version` with the file already read into `lines`. Errors that
   * the source reports with `sys.exit(1)` come back as `Failure`; the
   * warnings it writes to standard error come back in `warnings`, which are
   * emitted whether or not validation then succeeds.
   */
  method ExtractVersion(lines: seq<string>) returns (result: Result<Version, ExtractError>, warnings: seq<Warning>)
    ensures result == Extract(lines)
    ensures warnings == Warnings(Matches(lines))
  {
    var parts;
    parts, warnings := ScanLines(lines);
    result := CheckParts(parts);
  }
}
