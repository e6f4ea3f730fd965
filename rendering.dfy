/**
 * `get_version_string`: the three numbers joined with `.` and the suffix,
 * if any, appended directly. `ReadVersion` is the inverse reading used to
 * state what the rendering preserves.
 */
module Rendering {
  import opened Wrappers
  import opened PyText
  import opened Extraction

  /** `sep.join(parts)`. */
  function Join(parts: seq<string>, sep: char): string {
    if parts == [] then []
    else if |parts| == 1 then parts[0]
    else parts[0] + [sep] + Join(parts[1..], sep)
  }

  /** The version string: `major.minor.revision`, followed by the suffix when there is one. */
  function Render(v: Version): (s: string)
    ensures s != []
  {
    var primary := Join([IntToString(v.major), IntToString(v.minor), IntToString(v.revision)], '.');
    match v.suffix
    case None => primary
    case Some(suffix) => primary + suffix
  }

  /** `get_version_string` with the header already read into `lines`. */
  function VersionString(lines: seq<string>): (r: Result<string, ExtractError>)
    ensures r.Success? <==> Extract(lines).Success?
    ensures r.Failure? ==> r.error == Extract(lines).error
    ensures r.Success? ==>
              var v := Extract(lines).value;
              r.value == IntToString(v.major) + "." + (IntToString(v.minor) + "." + (IntToString(v.revision) + SuffixText(v.suffix)))
  {
    var v :- Extract(lines);
    RenderShape(v);
    Success(Render(v))
  }

  /** The text before and after the first `c` in `s`, if `c` occurs. */
  function Cut(s: string, c: char): (r: Option<(string, string)>)
    ensures r.None? <==> c !in s
    ensures r.Some? ==> s == r.value.0 + [c] + r.value.1 && c !in r.value.0
  {
    if s == [] then None
    else if s[0] == c then Some(([], s[1..]))
    else
      match Cut(s[1..], c)
      case None => None
      case Some((before, after)) => Some(([s[0]] + before, after))
  }

  /** The length of the run of ASCII digits at the start of `s`. */
  function DigitRun(s: string): (n: nat)
    ensures n <= |s|
    ensures forall i :: 0 <= i < n ==> IsDigit(s[i])
    ensures n < |s| ==> !IsDigit(s[n])
  {
    if s != [] && IsDigit(s[0]) then 1 + DigitRun(s[1..]) else 0
  }

  /** The length of the integer at the start of `s`: an optional `-`, then its digits. */
  function NumberPrefix(s: string): (n: nat)
    ensures n <= |s|
  {
    var k := if s != [] && s[0] == '-' then 1 else 0;
    k + DigitRun(s[k..])
  }

  /**
   * Reads a version string back: the first two `.`-separated fields are
   * MAJOR and MINOR, REVISION is the integer that follows, and whatever is
   * left over is the suffix.
   */
  function ReadVersion(s: string): (r: Option<Version>)
    ensures r.Some? ==> r.value.suffix.Some? ==> r.value.suffix.value != []
  {
    match Cut(s, '.')
    case None => None
    case Some((first, rest)) =>
      match Cut(rest, '.')
      case None => None
      case Some((second, tail)) =>
        var n := NumberPrefix(tail);
        match (ParseInt(first), ParseInt(second), ParseInt(tail[..n]))
        case (Some(major), Some(minor), Some(revision)) =>
          Some(Version(major, minor, revision, if n == |tail| then None else Some(tail[n..])))
        case _ => None
  }

  /** The suffix cannot be told apart from the revision when it starts with a digit. */
  predicate Separable(suffix: Option<string>) {
    suffix.Some? ==> suffix.value != [] && !IsDigit(suffix.value[0])
  }

  lemma {:induction false} CutAt(a: string, b: string, c: char)
    requires c !in a
    ensures Cut(a + [c] + b, c) == Some((a, b))
  {
    if a != [] {
      assert (a + [c] + b)[1..] == a[1..] + [c] + b;
      CutAt(a[1..], b, c);
      assert [a[0]] + a[1..] == a;
    }
  }

  lemma NumberPrefixOf(n: int, suffix: string)
    requires suffix == [] || !IsDigit(suffix[0])
    ensures NumberPrefix(IntToString(n) + suffix) == |IntToString(n)|
  {
    var digits := IntToString(n);
    var s := digits + suffix;
    var k := if s != [] && s[0] == '-' then 1 else 0;
    assert s[k..] == digits[k..] + suffix;
    DigitRunOf(digits[k..], suffix);
  }

  lemma {:induction false} DigitRunOf(digits: string, rest: string)
    requires forall i :: 0 <= i < |digits| ==> IsDigit(digits[i])
    requires rest == [] || !IsDigit(rest[0])
    ensures DigitRun(digits + rest) == |digits|
  {
    if digits != [] {
      assert (digits + rest)[1..] == digits[1..] + rest;
      DigitRunOf(digits[1..], rest);
    }
  }

  /** The suffix as text: empty when there is none. */
  function SuffixText(suffix: Option<string>): string {
    if suffix.Some? then suffix.value else []
  }

  lemma RenderShape(v: Version)
    ensures Render(v) == IntToString(v.major) + ['.'] + (IntToString(v.minor) + ['.'] + (IntToString(v.revision) + SuffixText(v.suffix)))
  {
    var a, b, c := IntToString(v.major), IntToString(v.minor), IntToString(v.revision);
    var parts := [a, b, c];
    assert parts[1..] == [b, c] && parts[1..][1..] == [c];
    assert Join([b, c], '.') == b + ['.'] + c;
    assert Join(parts, '.') == a + ['.'] + (b + ['.'] + c);
  }

  lemma ReadRevision(revision: int, suffix: Option<string>)
    requires Separable(suffix)
    ensures var tail := IntToString(revision) + SuffixText(suffix);
            var n := NumberPrefix(tail);
            && ParseInt(tail[..n]) == Some(revision)
            && (if n == |tail| then None else Some(tail[n..])) == suffix
  {
    var c := IntToString(revision);
    var tail := c + SuffixText(suffix);
    NumberPrefixOf(revision, SuffixText(suffix));
    assert tail[..|c|] == c;
    assert tail[|c|..] == SuffixText(suffix);
    ParseIntToString(revision);
  }

  /**
   * Rendering loses nothing: a version whose suffix does not start with a
   * digit is read back from its string exactly, numbers, sign and suffix.
   */
  lemma RenderRoundTrip(v: Version)
    requires Separable(v.suffix)
    ensures ReadVersion(Render(v)) == Some(v)
  {
    var a, b, c := IntToString(v.major), IntToString(v.minor), IntToString(v.revision);
    var tail := c + SuffixText(v.suffix);
    RenderShape(v);
    CutAt(a, b + ['.'] + tail, '.');
    CutAt(b, tail, '.');
    ReadRevision(v.revision, v.suffix);
    ParseIntToString(v.major);
    ParseIntToString(v.minor);
  }

  /**
   * A suffix that starts with a digit runs into the revision: version 1.2.3
   * with suffix `4` renders exactly as version 1.2.34.
   */
  lemma DigitSuffixAmbiguous()
    ensures Render(Version(1, 2, 3, Some("4"))) == Render(Version(1, 2, 34, None))
    ensures Version(1, 2, 3, Some("4")) != Version(1, 2, 34, None)
  {
    assert IntToString(34) == "34";
  }

  /**
   * The version string of a header: exactly the extracted version, read
   * back unchanged, whenever its suffix does not start with a digit.
   */
  lemma VersionStringRoundTrip(lines: seq<string>)
    ensures Extract(lines).Success? && Separable(Extract(lines).value.suffix) ==>
              ReadVersion(VersionString(lines).value) == Some(Extract(lines).value)
  {
    if Extract(lines).Success? && Separable(Extract(lines).value.suffix) {
      RenderRoundTrip(Extract(lines).value);
    }
  }
}
