/**
 * The line matcher that stands in for the regular expression
 *   \s*#define\s+POLYTRACKER_VERSION_([A-Za-z_0-9]+)\s+([^\s]+)\s*$
 * applied with `re.match` to every line of the header. It is a hand-written
 * recursive-descent matcher: each stage consumes one element of the pattern
 * and hands the rest of the line to the next. `MatchIff` proves that it
 * accepts exactly the lines the pattern describes and captures the same two
 * groups.
 */
module DefineLine {
  import opened Wrappers
  import opened PyText

  const Directive: string := "#define"
  const MacroPrefix: string := "POLYTRACKER_VERSION_"

  /** The two captured groups: the macro name after the prefix, and its value token. */
  datatype Define = Define(name: string, value: string)

  /** The character classes of the pattern: `\s`, `[A-Za-z_0-9]` and `[^\s]`. */
  datatype CharClass = Space | NameChar | Token

  predicate IsNameChar(c: char) {
    ('A' <= c <= 'Z') || ('a' <= c <= 'z') || c == '_' || ('0' <= c <= '9')
  }

  predicate InClass(c: char, k: CharClass) {
    match k
    case Space => IsSpace(c)
    case NameChar => IsNameChar(c)
    case Token => !IsSpace(c)
  }

  predicate AllIn(s: string, k: CharClass) {
    forall i :: 0 <= i < |s| ==> InClass(s[i], k)
  }

  /** The length of the longest prefix of `s` whose characters are all of class `k`. */
  function Span(s: string, k: CharClass): (n: nat)
    ensures n <= |s|
    ensures forall p :: 0 <= p < n ==> InClass(s[p], k)
    ensures n < |s| ==> !InClass(s[n], k)
  {
    if s != [] && InClass(s[0], k) then 1 + Span(s[1..], k) else 0
  }

  predicate StartsWith(s: string, lit: string) {
    |lit| <= |s| && s[..|lit|] == lit
  }

  /**
   * `re.match(pattern, line)`: the captured name and value, or `None` when
   * the line does not match. The leading `\s*` is skipped one character at
   * a time.
   */
  function Match(line: string): (r: Option<Define>)
    ensures r.Some? ==> r.value.name != [] && AllIn(r.value.name, NameChar)
    ensures r.Some? ==> r.value.value != [] && NoSpace(r.value.value)
  {
    if line != [] && IsSpace(line[0]) then Match(line[1..]) else AfterLead(line)
  }

  /** After the leading whitespace: the literal `#define`. */
  function AfterLead(s: string): (r: Option<Define>)
    ensures r.Some? ==> r.value.name != [] && AllIn(r.value.name, NameChar)
    ensures r.Some? ==> r.value.value != [] && NoSpace(r.value.value)
  {
    if StartsWith(s, Directive) then AfterDirective(s[|Directive|..]) else None
  }

  /** After `#define`: at least one whitespace character. */
  function AfterDirective(s: string): (r: Option<Define>)
    ensures r.Some? ==> r.value.name != [] && AllIn(r.value.name, NameChar)
    ensures r.Some? ==> r.value.value != [] && NoSpace(r.value.value)
  {
    var n := Span(s, Space);
    if n == 0 then None else AfterGap(s[n..])
  }

  /** After the whitespace: the literal `POLYTRACKER_VERSION_`. */
  function AfterGap(s: string): (r: Option<Define>)
    ensures r.Some? ==> r.value.name != [] && AllIn(r.value.name, NameChar)
    ensures r.Some? ==> r.value.value != [] && NoSpace(r.value.value)
  {
    if StartsWith(s, MacroPrefix) then AfterPrefix(s[|MacroPrefix|..]) else None
  }

  /** After the prefix: the name group `([A-Za-z_0-9]+)`. */
  function AfterPrefix(s: string): (r: Option<Define>)
    ensures r.Some? ==> r.value.name != [] && AllIn(r.value.name, NameChar)
    ensures r.Some? ==> r.value.value != [] && NoSpace(r.value.value)
  {
    var n := Span(s, NameChar);
    if n == 0 then None else AfterName(s[..n], s[n..])
  }

  /** After the name: at least one whitespace character. */
  function AfterName(name: string, s: string): (r: Option<Define>)
    ensures r.Some? ==> r.value.name == name
    ensures r.Some? ==> r.value.value != [] && NoSpace(r.value.value)
  {
    var n := Span(s, Space);
    if n == 0 then None else AfterSeparator(name, s[n..])
  }

  /** After the whitespace: the value group `([^\s]+)`, then only whitespace to the end (`\s*$`). */
  function AfterSeparator(name: string, s: string): (r: Option<Define>)
    ensures r.Some? ==> r.value.name == name
    ensures r.Some? ==> r.value.value != [] && NoSpace(r.value.value)
  {
    var n := Span(s, Token);
    if n == 0 || Span(s[n..], Space) != |s| - n then None else Some(Define(name, s[..n]))
  }

  /** A line built the way the pattern reads, piece by piece. */
  function Assemble(lead: string, gap: string, name: string, sep: string, value: string, trail: string): string {
    lead + (Directive + (gap + (MacroPrefix + (name + (sep + (value + trail))))))
  }

  /** The pieces each have the shape the pattern asks for. */
  predicate Pieces(lead: string, gap: string, name: string, sep: string, value: string, trail: string) {
    && AllIn(lead, Space)
    && gap != [] && AllIn(gap, Space)
    && name != [] && AllIn(name, NameChar)
    && sep != [] && AllIn(sep, Space)
    && value != [] && AllIn(value, Token)
    && AllIn(trail, Space)
  }

  /** A run of class `k` followed by a character outside it is consumed exactly. */
  lemma SpanOver(piece: string, rest: string, k: CharClass)
    requires AllIn(piece, k) && (rest != [] ==> !InClass(rest[0], k))
    ensures Span(piece + rest, k) == |piece|
    ensures (piece + rest)[..|piece|] == piece && (piece + rest)[|piece|..] == rest
  {
  }

  lemma LiteralOver(lit: string, rest: string)
    ensures StartsWith(lit + rest, lit) && (lit + rest)[|lit|..] == rest
  {
    assert (lit + rest)[..|lit|] == lit;
  }

  /** The last stage accepts a value token followed by nothing but whitespace. */
  lemma SeparatorComplete(name: string, value: string, trail: string)
    requires value != [] && AllIn(value, Token) && AllIn(trail, Space)
    ensures AfterSeparator(name, value + trail) == Some(Define(name, value))
  {
    if trail != [] {
      assert (value + trail)[|value|] == trail[0];
    }
    SpanOver(value, trail, Token);
    SpanOver(trail, [], Space);
    assert trail + [] == trail;
  }

  lemma NameComplete(name: string, sep: string, rest: string)
    requires sep != [] && AllIn(sep, Space) && rest != [] && !IsSpace(rest[0])
    ensures AfterName(name, sep + rest) == AfterSeparator(name, rest)
  {
    SpanOver(sep, rest, Space);
  }

  lemma PrefixComplete(name: string, rest: string)
    requires name != [] && AllIn(name, NameChar) && rest != [] && IsSpace(rest[0])
    ensures AfterPrefix(name + rest) == AfterName(name, rest)
  {
    SpanOver(name, rest, NameChar);
  }

  lemma DirectiveComplete(gap: string, rest: string)
    requires gap != [] && AllIn(gap, Space)
    ensures AfterDirective(gap + (MacroPrefix + rest)) == AfterPrefix(rest)
  {
    assert (MacroPrefix + rest)[0] == 'P';
    SpanOver(gap, MacroPrefix + rest, Space);
    LiteralOver(MacroPrefix, rest);
  }

  /** Skipping the leading whitespace is skipping the longest whitespace prefix. */
  lemma {:induction false} MatchSkipsLead(line: string)
    ensures Match(line) == AfterLead(line[Span(line, Space)..])
  {
    if line != [] && IsSpace(line[0]) {
      MatchSkipsLead(line[1..]);
      assert line[1..][Span(line[1..], Space)..] == line[Span(line, Space)..];
    }
  }

  lemma LeadComplete(lead: string, rest: string)
    requires AllIn(lead, Space)
    ensures Match(lead + (Directive + rest)) == AfterDirective(rest)
  {
    assert (Directive + rest)[0] == '#';
    SpanOver(lead, Directive + rest, Space);
    MatchSkipsLead(lead + (Directive + rest));
    LiteralOver(Directive, rest);
  }

  /** Every line of the pattern's shape is matched, with its own name and value captured. */
  lemma MatchComplete(lead: string, gap: string, name: string, sep: string, value: string, trail: string)
    requires Pieces(lead, gap, name, sep, value, trail)
    ensures Match(Assemble(lead, gap, name, sep, value, trail)) == Some(Define(name, value))
  {
    var r6 := value + trail;
    var r5 := sep + r6;
    var r4 := name + r5;
    LeadComplete(lead, gap + (MacroPrefix + r4));
    DirectiveComplete(gap, r4);
    assert r5[0] == sep[0];
    PrefixComplete(name, r5);
    assert r6[0] == value[0];
    NameComplete(name, sep, r6);
    SeparatorComplete(name, value, trail);
  }

  /*
   * Soundness, stage by stage: each lemma hands back the pieces it found
   * in front of the captured value.
   */

  lemma SeparatorSound(name: string, s: string) returns (trail: string)
    requires AfterSeparator(name, s).Some?
    ensures AllIn(trail, Space) && s == AfterSeparator(name, s).value.value + trail
  {
    var n := Span(s, Token);
    trail := s[n..];
    assert s == s[..n] + trail;
  }

  lemma NameSound(name: string, s: string) returns (sep: string, trail: string)
    requires AfterName(name, s).Some?
    ensures sep != [] && AllIn(sep, Space) && AllIn(trail, Space)
    ensures s == sep + (AfterName(name, s).value.value + trail)
  {
    var n := Span(s, Space);
    var rest := s[n..];
    sep := s[..n];
    assert s == sep + rest && AllIn(sep, Space) by {
      forall i | 0 <= i < |sep| ensures InClass(sep[i], Space) {
        assert sep[i] == s[i];
      }
    }
    trail := SeparatorSound(name, rest);
  }

  lemma PrefixSound(s: string) returns (sep: string, trail: string)
    requires AfterPrefix(s).Some?
    ensures sep != [] && AllIn(sep, Space) && AllIn(trail, Space)
    ensures s == AfterPrefix(s).value.name + (sep + (AfterPrefix(s).value.value + trail))
  {
    var n := Span(s, NameChar);
    var name, rest := s[..n], s[n..];
    assert s == name + rest;
    sep, trail := NameSound(name, rest);
  }

  lemma GapSound(s: string) returns (sep: string, trail: string)
    requires AfterGap(s).Some?
    ensures sep != [] && AllIn(sep, Space) && AllIn(trail, Space)
    ensures s == MacroPrefix + (AfterGap(s).value.name + (sep + (AfterGap(s).value.value + trail)))
  {
    var body := s[|MacroPrefix|..];
    LiteralSplit(s, MacroPrefix);
    assert AfterGap(s) == AfterPrefix(body);
    sep, trail := PrefixSound(body);
  }

  /** A string splits at the end of its leading run of class `k`. */
  lemma SpanSplit(s: string, k: CharClass)
    ensures AllIn(s[..Span(s, k)], k) && s == s[..Span(s, k)] + s[Span(s, k)..]
  {
    var n := Span(s, k);
    forall i | 0 <= i < n ensures InClass(s[..n][i], k) {
      assert s[..n][i] == s[i];
    }
  }

  /** A string that starts with `lit` is `lit` followed by the rest. */
  lemma LiteralSplit(s: string, lit: string)
    requires StartsWith(s, lit)
    ensures s == lit + s[|lit|..]
  {
  }

  lemma DirectiveSound(s: string) returns (gap: string, sep: string, trail: string)
    requires AfterDirective(s).Some?
    ensures gap != [] && AllIn(gap, Space) && sep != [] && AllIn(sep, Space) && AllIn(trail, Space)
    ensures s == gap + (MacroPrefix + (AfterDirective(s).value.name + (sep + (AfterDirective(s).value.value + trail))))
  {
    var n := Span(s, Space);
    var rest := s[n..];
    gap := s[..n];
    SpanSplit(s, Space);
    assert AfterDirective(s) == AfterGap(rest);
    sep, trail := GapSound(rest);
  }

  lemma LeadSound(s: string) returns (gap: string, sep: string, trail: string)
    requires AfterLead(s).Some?
    ensures gap != [] && AllIn(gap, Space) && sep != [] && AllIn(sep, Space) && AllIn(trail, Space)
    ensures s == Directive + (gap + (MacroPrefix + (AfterLead(s).value.name + (sep + (AfterLead(s).value.value + trail)))))
  {
    var body := s[|Directive|..];
    LiteralSplit(s, Directive);
    assert AfterLead(s) == AfterDirective(body);
    gap, sep, trail := DirectiveSound(body);
  }

  /** A matched line has the pattern's shape, with the captured name and value in their places. */
  lemma MatchSound(line: string)
    requires Match(line).Some?
    ensures exists lead, gap, sep, trail ::
              && Pieces(lead, gap, Match(line).value.name, sep, Match(line).value.value, trail)
              && line == Assemble(lead, gap, Match(line).value.name, sep, Match(line).value.value, trail)
  {
    var n := Span(line, Space);
    var lead, rest := line[..n], line[n..];
    assert line == lead + rest && AllIn(lead, Space) by {
      forall i | 0 <= i < |lead| ensures InClass(lead[i], Space) {
        assert lead[i] == line[i];
      }
    }
    assert Match(line) == AfterLead(rest) by {
      MatchSkipsLead(line);
    }
    var d := Match(line).value;
    var gap, sep, trail := LeadSound(rest);
    assert Pieces(lead, gap, d.name, sep, d.value, trail);
    assert line == Assemble(lead, gap, d.name, sep, d.value, trail);
  }

  /**
   * The matcher captures `name` and `value` exactly when the line is
   * optional whitespace, `#define`, whitespace, `POLYTRACKER_VERSION_`, the
   * name, whitespace, the value token and optional trailing whitespace.
   */
  lemma MatchIff(line: string, name: string, value: string)
    ensures Match(line) == Some(Define(name, value)) <==>
            exists lead, gap, sep, trail ::
              Pieces(lead, gap, name, sep, value, trail) && line == Assemble(lead, gap, name, sep, value, trail)
  {
    if Match(line) == Some(Define(name, value)) {
      MatchSound(line);
    }
    if exists lead, gap, sep, trail ::
         Pieces(lead, gap, name, sep, value, trail) && line == Assemble(lead, gap, name, sep, value, trail) {
      var lead, gap, sep, trail :|
        Pieces(lead, gap, name, sep, value, trail) && line == Assemble(lead, gap, name, sep, value, trail);
      MatchComplete(lead, gap, name, sep, value, trail);
    }
  }

  /** A line of any other shape (a trailing comment after the value, say) is not matched. */
  lemma NoMatch(line: string)
    requires forall lead, gap, name, sep, value, trail ::
               !(Pieces(lead, gap, name, sep, value, trail) && line == Assemble(lead, gap, name, sep, value, trail))
    ensures Match(line) == None
  {
    if Match(line).Some? {
      MatchSound(line);
    }
  }
}
