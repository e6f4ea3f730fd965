/**
 * What `extract_version` promises, stated over the specification functions
 * of module Extraction: the table keeps the last definition of each
 * recognised name, the warnings are exactly the unexpected defines in line
 * order, validation reports the first bad required field, the suffix is
 * normalised as documented, and lines that are not defines change nothing
 * but the warnings' line numbers.
 */
module ExtractionFacts {
  import opened Wrappers
  import opened PyText
  import opened DefineLine
  import opened Extraction

  /** A recognised name is in the table exactly when some line defines it. */
  lemma {:induction false} TableHasName(ms: seq<Option<Define>>, name: string)
    ensures name in Table(ms) <==> exists i :: 0 <= i < |ms| && Records(ms[i], name)
  {
    if ms != [] {
      var init := ms[..|ms| - 1];
      TableHasName(init, name);
      if name in Table(ms) && !Records(ms[|ms| - 1], name) {
        var i :| 0 <= i < |init| && Records(init[i], name);
        assert init[i] == ms[i];
      }
      if i :| 0 <= i < |init| && Records(ms[i], name) {
        assert init[i] == ms[i];
      }
    }
  }

  /**
   * Last definition wins: the entry for a name is the value on the last
   * line that defines it; earlier definitions, and lines that define
   * something else or nothing, leave no trace.
   */
  lemma {:induction false} TableLastWins(ms: seq<Option<Define>>, name: string, i: nat)
    requires i < |ms| && Records(ms[i], name)
    requires forall j :: i < j < |ms| ==> !Records(ms[j], name)
    ensures name in Table(ms) && Table(ms)[name] == ms[i].value.value
  {
    var init := ms[..|ms| - 1];
    if i < |init| {
      assert init[i] == ms[i];
      forall j | i < j < |init| ensures !Records(init[j], name) {
        assert init[j] == ms[j];
      }
      TableLastWins(init, name, i);
    }
  }

  /** Every table entry is the value of some define of that name. */
  lemma {:induction false} TableEntryDefined(ms: seq<Option<Define>>, name: string)
    requires name in Table(ms)
    ensures exists i :: 0 <= i < |ms| && Records(ms[i], name) && ms[i].value.value == Table(ms)[name]
  {
    var init := ms[..|ms| - 1];
    if !Records(ms[|ms| - 1], name) {
      TableEntryDefined(init, name);
      var i :| 0 <= i < |init| && Records(init[i], name) && init[i].value.value == Table(init)[name];
      assert init[i] == ms[i];
    }
  }

  /** The same facts over the header's lines: the entry for a name comes from the last line defining it. */
  lemma LastDefinitionWins(lines: seq<string>, name: string, i: nat)
    requires i < |lines| && Records(Match(lines[i]), name)
    requires forall j :: i < j < |lines| ==> !Records(Match(lines[j]), name)
    ensures name in Table(Matches(lines)) && Table(Matches(lines))[name] == Match(lines[i]).value.value
  {
    TableLastWins(Matches(lines), name, i);
  }

  /** Every warning points at a line whose define names something unrecognised, and carries that name. */
  lemma {:induction false} WarningsSound(ms: seq<Option<Define>>)
    ensures forall k :: 0 <= k < |Warnings(ms)| ==>
              && Unexpected(ms[Warnings(ms)[k].line - 1])
              && Warnings(ms)[k].name == ms[Warnings(ms)[k].line - 1].value.name
  {
    if ms != [] {
      var init := ms[..|ms| - 1];
      WarningsSound(init);
      var ws := Warnings(ms);
      var earlier := Warnings(init);
      forall k | 0 <= k < |ws|
        ensures Unexpected(ms[ws[k].line - 1]) && ws[k].name == ms[ws[k].line - 1].value.name
      {
        if k < |earlier| {
          assert ws[k] == earlier[k];
          assert init[ws[k].line - 1] == ms[ws[k].line - 1];
        }
      }
    }
  }

  /** The warnings come in line order, at most one per line. */
  lemma {:induction false} WarningsOrdered(ms: seq<Option<Define>>)
    ensures forall k, k' :: 0 <= k < k' < |Warnings(ms)| ==> Warnings(ms)[k].line < Warnings(ms)[k'].line
  {
    if ms != [] {
      var init := ms[..|ms| - 1];
      WarningsOrdered(init);
      var ws := Warnings(ms);
      var earlier := Warnings(init);
      forall k, k' | 0 <= k < k' < |ws| ensures ws[k].line < ws[k'].line {
        assert ws[k] == earlier[k];
        if k' < |earlier| {
          assert ws[k'] == earlier[k'];
        }
      }
    }
  }

  /** No line whose define names something unrecognised goes without its warning. */
  lemma {:induction false} WarningsComplete(ms: seq<Option<Define>>, i: nat)
    requires i < |ms| && Unexpected(ms[i])
    ensures exists k :: 0 <= k < |Warnings(ms)| && Warnings(ms)[k] == Warning(i + 1, ms[i].value.name)
  {
    var init := ms[..|ms| - 1];
    var ws := Warnings(ms);
    if i < |init| {
      assert init[i] == ms[i];
      WarningsComplete(init, i);
      var earlier := Warnings(init);
      var k :| 0 <= k < |earlier| && earlier[k] == Warning(i + 1, ms[i].value.name);
      assert ws[k] == earlier[k];
    } else {
      assert ws[|ws| - 1] == Warning(i + 1, ms[i].value.name);
    }
  }

  /** No warning at all exactly when no line defines an unrecognised name. */
  lemma {:induction false} WarningsEmpty(ms: seq<Option<Define>>)
    ensures Warnings(ms) == [] <==> forall i :: 0 <= i < |ms| ==> !Unexpected(ms[i])
  {
    if ms != [] {
      var init := ms[..|ms| - 1];
      WarningsEmpty(init);
      assert forall i :: 0 <= i < |init| ==> init[i] == ms[i];
    }
  }

  /** Validation succeeds exactly when every required field is present and an integer, and then carries their values. */
  lemma ValidateSucceeds(t: map<string, string>)
    ensures Validate(t).Success? <==> forall k :: 0 <= k < |Required| ==> Required[k] in t && ParseInt(t[Required[k]]).Some?
    ensures Validate(t).Success? ==>
              && ParseInt(t["MAJOR"]) == Some(Validate(t).value.major)
              && ParseInt(t["MINOR"]) == Some(Validate(t).value.minor)
              && ParseInt(t["REVISION"]) == Some(Validate(t).value.revision)
              && Validate(t).value.suffix == NormaliseSuffix(RawSuffix(t))
  {
    if forall k :: 0 <= k < |Required| ==> Required[k] in t && ParseInt(t[Required[k]]).Some? {
      assert Field(t, Required[0]).Success? && Field(t, Required[1]).Success? && Field(t, Required[2]).Success?;
    } else {
      var k :| 0 <= k < |Required| && !(Required[k] in t && ParseInt(t[Required[k]]).Some?);
      assert Field(t, Required[k]).Failure?;
    }
  }

  /**
   * The suffix cases: the result is `None` exactly when the stripped value
   * is empty, a lone quote, or an empty quoted string; a longer quoted value
   * loses exactly one quote at each end; anything else passes through.
   */
  lemma SuffixCases(raw: string)
    ensures NormaliseSuffix(Some(raw)) == None <==> Strip(raw) in {"", "\"", "\"\""}
    ensures var s := Strip(raw);
            |s| > 2 && s[0] == '"' && s[|s| - 1] == '"' ==> NormaliseSuffix(Some(raw)) == Some(s[1..|s| - 1])
    ensures var s := Strip(raw);
            s != [] && !(s[0] == '"' && s[|s| - 1] == '"') ==> NormaliseSuffix(Some(raw)) == Some(s)
  {
    var s := Strip(raw);
    if |s| == 2 && s[0] == '"' && s[1] == '"' {
      assert s == "\"\"";
    } else if |s| == 1 && s[0] == '"' {
      assert s == "\"";
    }
  }

  /** Quoting is undone: any non-empty text between two quotes comes back as itself. */
  lemma UnquoteQuoted(x: string)
    requires x != []
    ensures NormaliseSuffix(Some("\"" + x + "\"")) == Some(x)
  {
    var q := "\"" + x + "\"";
    StripUnchanged(q);
    assert q[1..|q| - 1] == x;
  }

  /** A non-empty value that is not wrapped in quotes and has no surrounding whitespace is kept verbatim. */
  lemma PlainSuffixKept(x: string)
    requires x != [] && !IsSpace(x[0]) && !IsSpace(x[|x| - 1])
    requires !(x[0] == '"' && x[|x| - 1] == '"')
    ensures NormaliseSuffix(Some(x)) == Some(x)
  {
    StripUnchanged(x);
  }

  /**
   * A stored value is one whitespace-free token, so `strip()` never changes
   * the SUFFIX entry, and the extracted suffix is absent exactly when SUFFIX
   * is undefined or defined as `"` or `""`.
   */
  lemma StoredSuffix(lines: seq<string>)
    ensures var t := Table(Matches(lines));
            "SUFFIX" in t ==> t["SUFFIX"] != [] && Strip(t["SUFFIX"]) == t["SUFFIX"]
    ensures var t := Table(Matches(lines));
            Extract(lines).Success? ==>
              (Extract(lines).value.suffix.None? <==> "SUFFIX" !in t || t["SUFFIX"] == "\"" || t["SUFFIX"] == "\"\"")
  {
    var ms := Matches(lines);
    var t := Table(ms);
    ValidateSucceeds(t);
    if "SUFFIX" in t {
      TableEntryDefined(ms, "SUFFIX");
      var i :| 0 <= i < |ms| && Records(ms[i], "SUFFIX") && ms[i].value.value == t["SUFFIX"];
      assert ms[i] == Match(lines[i]);
      var raw := t["SUFFIX"];
      StripUnchanged(raw);
      SuffixCases(raw);
      assert raw in {"", "\"", "\"\""} <==> raw == "\"" || raw == "\"\"";
    }
  }

  /** `ws` with every line number above `at` moved down by one line. */
  function Shifted(ws: seq<Warning>, at: nat): (r: seq<Warning>)
    ensures |r| == |ws|
  {
    if ws == [] then []
    else
      var w := ws[|ws| - 1];
      Shifted(ws[..|ws| - 1], at) + [if w.line > at then Warning(w.line + 1, w.name) else w]
  }

  lemma {:induction false} ShiftedAppend(a: seq<Warning>, b: seq<Warning>, at: nat)
    ensures Shifted(a + b, at) == Shifted(a, at) + Shifted(b, at)
  {
    if b == [] {
      assert a + b == a;
    } else {
      var b' := b[..|b| - 1];
      assert (a + b)[..|a + b| - 1] == a + b';
      ShiftedAppend(a, b', at);
    }
  }

  /** Reading one more matched line `m` after `ms`. */
  lemma Snoc(ms: seq<Option<Define>>, m: Option<Define>)
    ensures Table(ms + [m]) ==
              if m.Some? && IsRecognised(m.value.name) then Table(ms)[m.value.name := m.value.value] else Table(ms)
    ensures Warnings(ms + [m]) ==
              if Unexpected(m) then Warnings(ms) + [Warning(|ms| + 1, m.value.name)] else Warnings(ms)
  {
    assert (ms + [m])[..|ms|] == ms;
  }

  /** A line the matcher rejects changes nothing in the table. */
  lemma {:induction false} TableSkipsUnmatched(xs: seq<Option<Define>>, ys: seq<Option<Define>>)
    ensures Table(xs + [None] + ys) == Table(xs + ys)
  {
    if ys == [] {
      assert xs + [None] + ys == xs + [None] && xs + ys == xs;
      Snoc(xs, None);
    } else {
      var ys', y := ys[..|ys| - 1], ys[|ys| - 1];
      TableSkipsUnmatched(xs, ys');
      assert xs + [None] + ys == (xs + [None] + ys') + [y] && xs + ys == (xs + ys') + [y] by {
        assert ys == ys' + [y];
      }
      Snoc(xs + [None] + ys', y);
      Snoc(xs + ys', y);
    }
  }

  /** A line the matcher rejects only renumbers the warnings after it, by one. */
  lemma {:induction false} WarningsSkipUnmatched(xs: seq<Option<Define>>, ys: seq<Option<Define>>)
    ensures Warnings(xs + [None] + ys) == Shifted(Warnings(xs + ys), |xs|)
  {
    if ys == [] {
      assert xs + [None] + ys == xs + [None] && xs + ys == xs;
      Snoc(xs, None);
      ShiftedBelow(Warnings(xs), |xs|);
    } else {
      var ys', y := ys[..|ys| - 1], ys[|ys| - 1];
      WarningsSkipUnmatched(xs, ys');
      assert xs + [None] + ys == (xs + [None] + ys') + [y] && xs + ys == (xs + ys') + [y] by {
        assert ys == ys' + [y];
      }
      WarningsShiftStep(xs + [None] + ys', xs + ys', |xs|, y);
    }
  }

  lemma WarningsShiftStep(long: seq<Option<Define>>, short: seq<Option<Define>>, at: nat, y: Option<Define>)
    requires |long| == |short| + 1 && at <= |short|
    requires Warnings(long) == Shifted(Warnings(short), at)
    ensures Warnings(long + [y]) == Shifted(Warnings(short + [y]), at)
  {
    Snoc(long, y);
    Snoc(short, y);
    if Unexpected(y) {
      var w := Warning(|short| + 1, y.value.name);
      ShiftedAppend(Warnings(short), [w], at);
      assert [w][..0] == [];
      assert Shifted([w], at) == [Warning(|long| + 1, y.value.name)];
    }
  }

  lemma MatchesAppend(xs: seq<string>, ys: seq<string>)
    ensures Matches(xs + ys) == Matches(xs) + Matches(ys)
  {
    assert forall i :: 0 <= i < |xs| ==> (xs + ys)[i] == xs[i];
    assert forall i :: |xs| <= i < |xs + ys| ==> (xs + ys)[i] == ys[i - |xs|];
  }

  /**
   * Inserting a line that is not a define (a comment, a define of another
   * macro, a version define with a trailing comment) leaves the extraction
   * unchanged, and only renumbers the warnings after it.
   */
  lemma InsertUnmatchedLine(xs: seq<string>, junk: string, ys: seq<string>)
    requires Match(junk) == None
    ensures Extract(xs + [junk] + ys) == Extract(xs + ys)
    ensures Warnings(Matches(xs + [junk] + ys)) == Shifted(Warnings(Matches(xs + ys)), |xs|)
  {
    MatchesAppend(xs + [junk], ys);
    MatchesAppend(xs, [junk]);
    MatchesAppend(xs, ys);
    assert Matches([junk]) == [None];
    TableSkipsUnmatched(Matches(xs), Matches(ys));
    WarningsSkipUnmatched(Matches(xs), Matches(ys));
  }

  lemma {:induction false} ShiftedBelow(ws: seq<Warning>, at: nat)
    requires forall k :: 0 <= k < |ws| ==> ws[k].line <= at
    ensures Shifted(ws, at) == ws
  {
    if ws != [] {
      ShiftedBelow(ws[..|ws| - 1], at);
    }
  }
}
