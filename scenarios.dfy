/**
 * Concrete headers and what `extract_version` and `get_version_string`
 * make of them: the plain and suffixed versions, the empty quoted suffix,
 * missing and malformed required macros, an unexpected macro's warning,
 * surrounding whitespace, signed numbers and a redefinition.
 *
 * Each header is given by what the matcher makes of its lines, so a
 * scenario holds for every header whose lines match that way; `DefineOf`
 * shows one such line for each define, and `CommentedHeader` takes one
 * header from its text to its version string.
 */
module Scenarios {
  import opened Wrappers
  import opened PyText
  import opened DefineLine
  import opened Extraction
  import opened Rendering
  import opened ExtractionFacts

  /** `#define POLYTRACKER_VERSION_<name> <value>` with single spaces. */
  function DefineOf(name: string, value: string): string {
    Assemble([], " ", name, " ", value, [])
  }

  /** The line `DefineOf(name, value)` is matched with exactly that name and value. */
  lemma DefineOfMatches(name: string, value: string)
    requires name != [] && AllIn(name, NameChar)
    requires value != [] && AllIn(value, Token)
    ensures Match(DefineOf(name, value)) == Some(Define(name, value))
  {
    MatchComplete([], " ", name, " ", value, []);
  }

  /**
   * Whitespace before the directive, between the name and the value, and
   * after the value does not reach the captured value.
   */
  lemma PaddedDefine(lead: string, sep: string, trail: string)
    requires AllIn(lead, Space) && sep != [] && AllIn(sep, Space) && AllIn(trail, Space)
    ensures Match(Assemble(lead, " ", "MAJOR", sep, "1", trail)) == Some(Define("MAJOR", "1"))
  {
    MatchComplete(lead, " ", "MAJOR", sep, "1", trail);
  }

  const Major1: Option<Define> := Some(Define("MAJOR", "1"))
  const Minor2: Option<Define> := Some(Define("MINOR", "2"))
  const Revision3: Option<Define> := Some(Define("REVISION", "3"))
  const Standard: seq<Option<Define>> := [Major1, Minor2, Revision3]
  const StandardTable: map<string, string> := map["MAJOR" := "1", "MINOR" := "2", "REVISION" := "3"]

  lemma TableStandard()
    ensures Table(Standard) == StandardTable
  {
    assert Standard[..1][..0] == [] && Standard[..2][..1] == Standard[..1] && Standard[..3][..2] == Standard[..2];
    assert Standard[..3] == Standard;
    assert Table(Standard[..1]) == map["MAJOR" := "1"];
    assert Table(Standard[..2]) == map["MAJOR" := "1", "MINOR" := "2"];
  }

  /** The standard three defines followed by one more matched line `m`. */
  lemma TableStandardThen(m: Option<Define>)
    requires m.Some? && IsRecognised(m.value.name)
    ensures Table(Standard + [m]) == StandardTable[m.value.name := m.value.value]
  {
    TableStandard();
    Snoc(Standard, m);
  }

  lemma ValidateStandard(t: map<string, string>)
    requires "MAJOR" in t && t["MAJOR"] == "1"
    requires "MINOR" in t && t["MINOR"] == "2"
    requires "REVISION" in t && t["REVISION"] == "3"
    ensures Validate(t) == Success(Version(1, 2, 3, NormaliseSuffix(RawSuffix(t))))
  {
    assert ParseInt("1") == Some(1) && ParseInt("2") == Some(2) && ParseInt("3") == Some(3);
  }

  lemma RenderPlain()
    ensures Render(Version(1, 2, 3, None)) == "1.2.3"
  {
    assert IntToString(1) == "1" && IntToString(2) == "2" && IntToString(3) == "3";
    RenderShape(Version(1, 2, 3, None));
  }

  /** A header defining MAJOR 1, MINOR 2 and REVISION 3 and nothing else renders as `1.2.3`. */
  lemma PlainVersion(lines: seq<string>)
    requires Matches(lines) == Standard
    ensures Extract(lines) == Success(Version(1, 2, 3, None))
    ensures VersionString(lines) == Success("1.2.3")
  {
    TableStandard();
    ValidateStandard(StandardTable);
    assert Extract(lines) == Success(Version(1, 2, 3, None));
    RenderPlain();
  }

  /** The standard three defines and a SUFFIX of `raw`. */
  lemma SuffixedResult(lines: seq<string>, raw: string)
    requires Matches(lines) == Standard + [Some(Define("SUFFIX", raw))]
    ensures Extract(lines) == Success(Version(1, 2, 3, NormaliseSuffix(Some(raw))))
  {
    TableStandardThen(Some(Define("SUFFIX", raw)));
    ValidateStandard(StandardTable["SUFFIX" := raw]);
  }

  lemma UnquoteRc1()
    ensures NormaliseSuffix(Some("\"-rc1\"")) == Some("-rc1")
  {
    UnquoteQuoted("-rc1");
    assert "\"" + "-rc1" + "\"" == "\"-rc1\"";
  }

  lemma RenderRc1()
    ensures Render(Version(1, 2, 3, Some("-rc1"))) == "1.2.3-rc1"
  {
    assert IntToString(1) == "1" && IntToString(2) == "2" && IntToString(3) == "3";
    RenderShape(Version(1, 2, 3, Some("-rc1")));
    assert "1" + ['.'] + ("2" + ['.'] + ("3" + "-rc1")) == "1.2.3-rc1";
  }

  /** A SUFFIX of `"-rc1"`, quotes included, is appended without its quotes: `1.2.3-rc1`. */
  lemma QuotedSuffix(lines: seq<string>)
    requires Matches(lines) == Standard + [Some(Define("SUFFIX", "\"-rc1\""))]
    ensures Extract(lines) == Success(Version(1, 2, 3, Some("-rc1")))
    ensures VersionString(lines) == Success("1.2.3-rc1")
  {
    SuffixedResult(lines, "\"-rc1\"");
    UnquoteRc1();
    assert Extract(lines) == Success(Version(1, 2, 3, Some("-rc1")));
    RenderRc1();
  }

  lemma UnquoteEmpty()
    ensures NormaliseSuffix(Some("\"\"")) == None
  {
    SuffixCases("\"\"");
    StripUnchanged("\"\"");
  }

  /** A SUFFIX of `""` is the same as no SUFFIX at all: `1.2.3`. */
  lemma EmptyQuotedSuffix(lines: seq<string>)
    requires Matches(lines) == Standard + [Some(Define("SUFFIX", "\"\""))]
    ensures Extract(lines) == Success(Version(1, 2, 3, None))
    ensures VersionString(lines) == Success("1.2.3")
  {
    SuffixedResult(lines, "\"\"");
    UnquoteEmpty();
    assert Extract(lines) == Success(Version(1, 2, 3, None));
    RenderPlain();
  }

  lemma TableNoRevision()
    ensures Table([Major1, Minor2]) == map["MAJOR" := "1", "MINOR" := "2"]
  {
    var ms := [Major1, Minor2];
    assert ms[..1][..0] == [] && ms[..2][..1] == ms[..1] && ms[..2] == ms;
    assert Table(ms[..1]) == map["MAJOR" := "1"];
  }

  /** Validation with MAJOR and MINOR fine and REVISION absent. */
  lemma ValidateNoRevision(t: map<string, string>)
    requires "MAJOR" in t && t["MAJOR"] == "1" && "MINOR" in t && t["MINOR"] == "2" && "REVISION" !in t
    ensures Validate(t) == Failure(MissingMacro("REVISION"))
  {
    assert ParseInt("1") == Some(1) && ParseInt("2") == Some(2);
  }

  /** Without REVISION the extraction fails, naming REVISION, and no version string is produced. */
  lemma MissingRevision(lines: seq<string>)
    requires Matches(lines) == [Major1, Minor2]
    ensures Extract(lines) == Failure(MissingMacro("REVISION"))
    ensures VersionString(lines) == Failure(MissingMacro("REVISION"))
  {
    TableNoRevision();
    ValidateNoRevision(map["MAJOR" := "1", "MINOR" := "2"]);
  }

  /** MAJOR is validated first: a MAJOR of `abc` is the error whatever else the table holds. */
  lemma ValidateBadMajor(t: map<string, string>)
    requires "MAJOR" in t && t["MAJOR"] == "abc"
    ensures Validate(t) == Failure(NotInteger("MAJOR"))
  {
    assert ParseInt("abc") == None;
  }

  /**
   * A MAJOR of `abc` fails as not an integer; MAJOR is checked first, so
   * that is the error even when MINOR and REVISION are missing too.
   */
  lemma MajorNotInteger(lines: seq<string>)
    requires Matches(lines) == [Some(Define("MAJOR", "abc"))]
    ensures Extract(lines) == Failure(NotInteger("MAJOR"))
  {
    var ms := [Some(Define("MAJOR", "abc"))];
    assert ms[..0] == [] && ms[..1] == ms;
    assert Table(ms) == map["MAJOR" := "abc"];
    ValidateBadMajor(map["MAJOR" := "abc"]);
  }

  const WithFoo: seq<Option<Define>> := [Major1, Some(Define("FOO", "bar")), Minor2, Revision3]

  lemma TableWithFoo()
    ensures Table(WithFoo) == StandardTable
  {
    var ms := WithFoo;
    assert ms[..1][..0] == [] && ms[..2][..1] == ms[..1] && ms[..3][..2] == ms[..2] && ms[..4][..3] == ms[..3] && ms[..4] == ms;
    assert Table(ms[..1]) == map["MAJOR" := "1"];
    assert Table(ms[..2]) == map["MAJOR" := "1"];
    assert Table(ms[..3]) == map["MAJOR" := "1", "MINOR" := "2"];
  }

  lemma WarningsWithFoo()
    ensures Warnings(WithFoo) == [Warning(2, "FOO")]
  {
    var ms := WithFoo;
    assert ms[..1][..0] == [] && ms[..2][..1] == ms[..1] && ms[..3][..2] == ms[..2] && ms[..4][..3] == ms[..3] && ms[..4] == ms;
    assert Warnings(ms[..1]) == [];
    assert Warnings(ms[..2]) == [Warning(2, "FOO")];
    assert Warnings(ms[..3]) == [Warning(2, "FOO")];
  }

  /**
   * An unexpected `POLYTRACKER_VERSION_FOO bar` on the second line is
   * warned about as line 2 and does not stop the extraction.
   */
  lemma UnexpectedMacro(lines: seq<string>)
    requires Matches(lines) == WithFoo
    ensures Extract(lines) == Success(Version(1, 2, 3, None))
    ensures Warnings(Matches(lines)) == [Warning(2, "FOO")]
    ensures VersionString(lines) == Success("1.2.3")
  {
    TableWithFoo();
    WarningsWithFoo();
    ValidateStandard(StandardTable);
    assert Extract(lines) == Success(Version(1, 2, 3, None));
    RenderPlain();
  }

  const Signed: seq<Option<Define>> :=
    [Some(Define("MAJOR", "-1")), Some(Define("MINOR", "+2")), Some(Define("REVISION", "007"))]

  lemma TableSigned()
    ensures Table(Signed) == map["MAJOR" := "-1", "MINOR" := "+2", "REVISION" := "007"]
  {
    var ms := Signed;
    assert ms[..1][..0] == [] && ms[..2][..1] == ms[..1] && ms[..3][..2] == ms[..2] && ms[..3] == ms;
    assert Table(ms[..1]) == map["MAJOR" := "-1"];
    assert Table(ms[..2]) == map["MAJOR" := "-1", "MINOR" := "+2"];
  }

  lemma ValidateSigned(t: map<string, string>)
    requires t == map["MAJOR" := "-1", "MINOR" := "+2", "REVISION" := "007"]
    ensures Validate(t) == Success(Version(-1, 2, 7, None))
  {
    assert "007"[..2] == "00" && "00"[..1] == "0" && "0"[..0] == [];
    assert DigitsValue("007") == 7;
    assert ParseInt("-1") == Some(-1) && ParseInt("+2") == Some(2) && ParseInt("007") == Some(7);
  }

  lemma RenderSigned()
    ensures Render(Version(-1, 2, 7, None)) == "-1.2.7"
  {
    assert IntToString(-1) == "-1" && IntToString(2) == "2" && IntToString(7) == "7";
    RenderShape(Version(-1, 2, 7, None));
  }

  /**
   * `int()` takes a sign and leading zeros: MAJOR `-1`, MINOR `+2` and
   * REVISION `007` give the version -1.2.7, rendered `-1.2.7`.
   */
  lemma SignedNumbers(lines: seq<string>)
    requires Matches(lines) == Signed
    ensures Extract(lines) == Success(Version(-1, 2, 7, None))
    ensures VersionString(lines) == Success("-1.2.7")
  {
    TableSigned();
    ValidateSigned(map["MAJOR" := "-1", "MINOR" := "+2", "REVISION" := "007"]);
    assert Extract(lines) == Success(Version(-1, 2, 7, None));
    RenderSigned();
  }

  lemma ValidateRedefined(t: map<string, string>)
    requires t == map["MAJOR" := "4", "MINOR" := "2", "REVISION" := "3"]
    ensures Validate(t) == Success(Version(4, 2, 3, None))
  {
    assert ParseInt("4") == Some(4) && ParseInt("2") == Some(2) && ParseInt("3") == Some(3);
  }

  lemma NoWarningRedefined()
    ensures Warnings(Standard + [Some(Define("MAJOR", "4"))]) == []
  {
    var ms := Standard + [Some(Define("MAJOR", "4"))];
    assert forall i :: 0 <= i < |ms| ==> !Unexpected(ms[i]);
    WarningsEmpty(ms);
  }

  /** A second MAJOR further down replaces the first, without any warning. */
  lemma Redefinition(lines: seq<string>)
    requires Matches(lines) == Standard + [Some(Define("MAJOR", "4"))]
    ensures Extract(lines) == Success(Version(4, 2, 3, None))
    ensures Warnings(Matches(lines)) == []
  {
    var t := map["MAJOR" := "4", "MINOR" := "2", "REVISION" := "3"];
    assert Table(Matches(lines)) == t by {
      TableStandardThen(Some(Define("MAJOR", "4")));
      assert StandardTable["MAJOR" := "4"] == t;
    }
    ValidateRedefined(t);
    NoWarningRedefined();
  }

  /** A C comment is not a define. */
  lemma CommentSkipped()
    ensures Match("/* comment */") == None
  {
    assert Match("/* comment */") == AfterLead("/* comment */");
  }

  /** Each of the three defines as text matches on its own. */
  lemma MajorLineMatches()
    ensures Match(DefineOf("MAJOR", "1")) == Major1
  {
    DefineOfMatches("MAJOR", "1");
  }

  lemma MinorLineMatches()
    ensures Match(DefineOf("MINOR", "2")) == Minor2
  {
    DefineOfMatches("MINOR", "2");
  }

  lemma RevisionLineMatches()
    ensures Match(DefineOf("REVISION", "3")) == Revision3
  {
    DefineOfMatches("REVISION", "3");
  }

  lemma MatchesOfOne(a: string)
    ensures Matches([a]) == [Match(a)]
  {
    assert Matches([a])[0] == Match([a][0]);
  }

  /** The match results of three lines, in order. */
  lemma MatchesOfThree(a: string, b: string, c: string)
    ensures Matches([a, b, c]) == [Match(a), Match(b), Match(c)]
  {
    assert [a, b, c] == [a] + ([b] + [c]);
    MatchesAppend([a], [b] + [c]);
    MatchesAppend([b], [c]);
    MatchesOfOne(a);
    MatchesOfOne(b);
    MatchesOfOne(c);
  }

  lemma NoWarningStandard()
    ensures Warnings(Standard) == []
  {
    WarningsEmpty(Standard);
  }

  /**
   * A header given as text: the three defines with a comment line between
   * MAJOR and MINOR. The comment is not a define, so it changes nothing,
   * and the header gives version 1.2.3 with no warning.
   */
  lemma CommentedHeader()
    ensures var lines := [DefineOf("MAJOR", "1"), "/* comment */", DefineOf("MINOR", "2"), DefineOf("REVISION", "3")];
            && Extract(lines) == Success(Version(1, 2, 3, None))
            && VersionString(lines) == Success("1.2.3")
            && Warnings(Matches(lines)) == []
  {
    var major, comment, minor, revision := DefineOf("MAJOR", "1"), "/* comment */", DefineOf("MINOR", "2"), DefineOf("REVISION", "3");
    var xs, ys := [major], [minor, revision];
    assert [major, comment, minor, revision] == xs + [comment] + ys;
    assert xs + ys == [major, minor, revision];
    CommentSkipped();
    InsertUnmatchedLine(xs, comment, ys);
    MajorLineMatches();
    MinorLineMatches();
    RevisionLineMatches();
    MatchesOfThree(major, minor, revision);
    PlainVersion(xs + ys);
    NoWarningStandard();
  }
}
