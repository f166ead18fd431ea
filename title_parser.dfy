/**
 * The title parser: `/Title: "(.*)"/.exec(reply)` and the choice of the
 * captured group, written out with the semantics of a non-global JavaScript
 * regular expression. Start positions are tried from the left; at each one the
 * greedy `(.*)` first runs to the end of the line (`.` matches no line
 * terminator) and then gives code units back until a `"` follows it.
 */
module TitleParser {
  import opened Wrappers
  import opened Text

  /** `Title: "`, the literal text in front of the group. */
  const TitlePrefix: Str := Units("Title: \"")

  /** `"`, the literal text after the group. */
  const Quote: CodeUnit := 0x22

  /** A successful `exec`: where `Title: "` starts and where the closing quote is.
    * The captured group lies strictly between the two. */
  datatype Match = Match(index: nat, close: nat)

  /** The pattern matches `s` starting at `i` with its closing quote at `j`. */
  ghost predicate IsMatch(s: Str, i: nat, j: nat) {
    && OccursAt(s, TitlePrefix, i)
    && i + |TitlePrefix| <= j < |s|
    && s[j] == Quote
    && forall m :: i + |TitlePrefix| <= m < j ==> !IsLineTerminator(s[m])
  }

  /** The match `exec` reports: leftmost start, and at that start the greedy,
    * i.e. last possible, closing quote. */
  ghost predicate IsLeftmostGreedyMatch(s: Str, i: nat, j: nat) {
    && IsMatch(s, i, j)
    && (forall i': nat, j': nat :: IsMatch(s, i', j') ==> i <= i')
    && (forall j': nat :: IsMatch(s, i, j') ==> j' <= j)
  }

  /** The first line terminator at or after `k`, or the end of `s`: how far `.*` can run. */
  function LineEnd(s: Str, k: nat): (e: nat)
    requires k <= |s|
    ensures k <= e <= |s|
    ensures forall m :: k <= m < e ==> !IsLineTerminator(s[m])
    ensures e < |s| ==> IsLineTerminator(s[e])
    decreases |s| - k
  {
    if k == |s| || IsLineTerminator(s[k]) then k else LineEnd(s, k + 1)
  }

  /** Backtracking of `(.*)"`: the last quote in `s[k..e]`, if any. */
  function LastQuote(s: Str, k: nat, e: nat): (r: Option<nat>)
    requires k <= e <= |s|
    ensures r.Some? ==> k <= r.value < e && s[r.value] == Quote
    ensures r.Some? ==> forall m :: r.value < m < e ==> s[m] != Quote
    ensures r.None? ==> forall m :: k <= m < e ==> s[m] != Quote
    decreases e - k
  {
    if e == k then None
    else if s[e - 1] == Quote then Some(e - 1)
    else LastQuote(s, k, e - 1)
  }

  /** The attempt of the pattern at start position `i`: the closing quote the
    * greedy group settles on, or None when the pattern fails there. */
  function MatchAt(s: Str, i: nat): (r: Option<nat>)
    ensures r.Some? ==> IsMatch(s, i, r.value)
    ensures r.Some? ==> forall j: nat :: IsMatch(s, i, j) ==> j <= r.value
    ensures r.None? ==> forall j: nat :: !IsMatch(s, i, j)
  {
    if !OccursAt(s, TitlePrefix, i) then None
    else
      var k := i + |TitlePrefix|;
      var e := LineEnd(s, k);
      var r := LastQuote(s, k, e);
      r
  }

  /** The scan of `exec` over start positions `i`, `i + 1`, ..., `|s|`. */
  function ExecFrom(s: Str, i: nat): (r: Option<Match>)
    requires i <= |s|
    ensures r.Some? ==> i <= r.value.index && IsMatch(s, r.value.index, r.value.close)
    ensures r.Some? ==> forall j: nat :: IsMatch(s, r.value.index, j) ==> j <= r.value.close
    ensures forall i': nat, j: nat :: i <= i' && IsMatch(s, i', j) ==> r.Some? && r.value.index <= i'
    decreases |s| - i
  {
    match MatchAt(s, i)
    case Some(j) => Some(Match(i, j))
    case None => if i == |s| then None else ExecFrom(s, i + 1)
  }

  /** `/Title: "(.*)"/.exec(s)`: the leftmost-greedy match, or null when there is none. */
  function Exec(s: Str): (r: Option<Match>)
    ensures r.Some? ==> IsLeftmostGreedyMatch(s, r.value.index, r.value.close)
    ensures r.None? <==> forall i: nat, j: nat :: !IsMatch(s, i, j)
  {
    ExecFrom(s, 0)
  }

  /** The title `createNewTitle` takes from the model's reply: the captured
    * group `matches[1]`, or null when the pattern does not match. A found
    * title sits between `Title: "` and a `"` in the reply, on one line. */
  function ExtractTitle(reply: Str): (t: Option<Str>)
    ensures t.None? <==> forall i: nat, j: nat :: !IsMatch(reply, i, j)
    ensures t.Some? ==> Contains(reply, TitlePrefix + t.value + [Quote])
    ensures t.Some? ==> forall m :: 0 <= m < |t.value| ==> !IsLineTerminator(t.value[m])
  {
    match Exec(reply)
    case None => None
    case Some(m) =>
      MatchedGroup(reply, m.index, m.close);
      Some(reply[m.index + |TitlePrefix|..m.close])
  }

  /** The group of a match is enclosed by `Title: "` and `"` in `s` and holds no line terminator. */
  lemma MatchedGroup(s: Str, i: nat, j: nat)
    requires IsMatch(s, i, j)
    ensures var t := s[i + |TitlePrefix|..j];
            && OccursAt(s, TitlePrefix + t + [Quote], i)
            && forall m :: 0 <= m < |t| ==> !IsLineTerminator(t[m])
  {
    var k := i + |TitlePrefix|;
    var t := s[k..j];
    assert s[i..j + 1] == s[i..k] + t + [s[j]];
    forall m | 0 <= m < |t| ensures !IsLineTerminator(t[m]) {
      assert t[m] == s[k + m];
    }
  }

  /** Both directions: a title is extracted exactly when it is the group of the
    * leftmost start position, taken up to the last quote on that line. */
  lemma ExtractTitleIsLeftmostGreedy(reply: Str, t: Str)
    ensures ExtractTitle(reply) == Some(t) <==>
            exists i: nat, j: nat :: IsLeftmostGreedyMatch(reply, i, j) && t == reply[i + |TitlePrefix|..j]
  {
    var r := Exec(reply);
    if ExtractTitle(reply) == Some(t) {
      var i, j := r.value.index, r.value.close;
      assert IsLeftmostGreedyMatch(reply, i, j) && t == reply[i + |TitlePrefix|..j];
    }
    if exists i: nat, j: nat :: IsLeftmostGreedyMatch(reply, i, j) && t == reply[i + |TitlePrefix|..j] {
      var i: nat, j: nat :| IsLeftmostGreedyMatch(reply, i, j) && t == reply[i + |TitlePrefix|..j];
      assert r.Some?;
      LeftmostGreedyMatchIsUnique(reply, i, j, r.value.index, r.value.close);
    }
  }

  /** There is at most one leftmost-greedy match. */
  lemma LeftmostGreedyMatchIsUnique(s: Str, i: nat, j: nat, i': nat, j': nat)
    requires IsLeftmostGreedyMatch(s, i, j) && IsLeftmostGreedyMatch(s, i', j')
    ensures i == i' && j == j'
  {
    assert i <= i' && i' <= i;
  }

  /** A reply with an empty pair of quotes gives the empty title, not null. */
  lemma EmptyQuotesGiveEmptyTitle()
    ensures ExtractTitle(Units("Title: \"\"")) == Some([])
  {
    var s := Units("Title: \"\"");
    assert |s| == 9;
    assert s[..8] == TitlePrefix;
    assert IsMatch(s, 0, 8);
    ExtractTitleIsLeftmostGreedy(s, []);
    assert s[8..8] == [];
  }

  /** The greedy group runs to the last quote of the line: quotes inside the
    * title are kept, and a quote on the next line is not reached. */
  lemma GreedyGroupKeepsInnerQuotes()
    ensures ExtractTitle(Units("Title: \"a\" b\"\n\"")) == Some(Units("a\" b"))
  {
    var s := Units("Title: \"a\" b\"\n\"");
    assert |s| == 15;
    assert s[..8] == TitlePrefix;
    assert IsMatch(s, 0, 12);
    forall j: nat | IsMatch(s, 0, j) ensures j <= 12 {
      assert IsLineTerminator(s[13]);
    }
    assert IsLeftmostGreedyMatch(s, 0, 12);
    ExtractTitleIsLeftmostGreedy(s, s[8..12]);
    assert s[8..12] == Units("a\" b");
  }

  /** Every match starts at a `T`. */
  lemma MatchStartsWithT(s: Str, i: nat)
    requires OccursAt(s, TitlePrefix, i)
    ensures s[i] == 0x54
  {
    assert s[i] == s[i..i + |TitlePrefix|][0];
  }

  /** `.` matches every code unit but the four line terminators: the one-unit
    * title `c` is found exactly when `c` is not a line terminator. */
  lemma DotRefusesExactlyLineTerminators(c: CodeUnit)
    requires c != Quote
    ensures ExtractTitle(TitlePrefix + [c, Quote]) == if IsLineTerminator(c) then None else Some([c])
  {
    var s := TitlePrefix + [c, Quote];
    assert s[..8] == TitlePrefix && s[8] == c && s[9] == Quote;
    forall i: nat, j: nat | IsMatch(s, i, j) ensures i == 0 && j == 9 && !IsLineTerminator(c) {
      MatchStartsWithT(s, i);
      assert s[1] == 0x69 && s[2] == 0x74;
      assert j != 8;
      assert i + |TitlePrefix| <= 8 < j;
    }
    if !IsLineTerminator(c) {
      assert IsMatch(s, 0, 9);
      assert IsLeftmostGreedyMatch(s, 0, 9);
      ExtractTitleIsLeftmostGreedy(s, [c]);
      assert s[8..9] == [c];
    }
  }

  /** A reply that ends with the title line gives back exactly the text
    * between `Title: "` and the final quote, quotes inside it included, when
    * nothing in front of the line could start a match (it has no `T`). */
  lemma TrailingTitleLineIsExtracted(lead: Str, t: Str)
    requires 0x54 !in lead
    requires forall m :: 0 <= m < |t| ==> !IsLineTerminator(t[m])
    ensures ExtractTitle(lead + TitlePrefix + t + [Quote]) == Some(t)
  {
    var s := lead + TitlePrefix + t + [Quote];
    var i, j := |lead|, |s| - 1;
    assert s[i..i + |TitlePrefix|] == TitlePrefix;
    assert forall m :: i + |TitlePrefix| <= m < j ==> s[m] == t[m - i - |TitlePrefix|];
    assert IsMatch(s, i, j);
    forall i': nat, j': nat | IsMatch(s, i', j') ensures i <= i' {
      MatchStartsWithT(s, i');
    }
    assert IsLeftmostGreedyMatch(s, i, j);
    ExtractTitleIsLeftmostGreedy(s, t);
    assert s[i + |TitlePrefix|..j] == t;
  }

  /** The reply `Generated text Title: "Rechnung 2023-04-01"` gives `Rechnung 2023-04-01`. */
  lemma GeneratedTextExample()
    ensures ExtractTitle(Units("Generated text ") + TitlePrefix + Units("Rechnung 2023-04-01") + [Quote])
            == Some(Units("Rechnung 2023-04-01"))
  {
    var lead := Units("Generated text ");
    assert lead == [0x47, 0x65, 0x6E, 0x65, 0x72, 0x61, 0x74, 0x65, 0x64, 0x20, 0x74, 0x65, 0x78, 0x74, 0x20];
    TrailingTitleLineIsExtracted(lead, Units("Rechnung 2023-04-01"));
  }
}
