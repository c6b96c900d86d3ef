/**
 * Splitting a polished journal text into a numbered thread of posts
 * (`splitIntoThread`): the text is cut into sentences by the regular
 * expression `[^.!?]+[.!?]+`, the trimmed sentences are packed greedily into
 * chunks of at most `MaxLength - 10` characters, and every chunk gets a
 * ` (i/N)` progress marker.
 */
module TextSplitter {
  import opened Common
  import opened Strings

  const MaxLength: nat := 260

  /** The length a chunk of two or more sentences may reach; ten characters stay free for the marker. */
  const ChunkBudget: nat := MaxLength - 10

  predicate IsTerminator(c: char) {
    c == '.' || c == '!' || c == '?'
  }

  predicate NotTerminator(c: char) {
    !IsTerminator(c)
  }

  /**
   * The shape of one match of `[^.!?]+[.!?]+`: a non-empty run of other
   * characters up to the first terminator, then terminators only, at least one.
   */
  predicate IsSentence(m: string) {
    var k := Span(m, 0, NotTerminator);
    0 < k < |m| && OnlyTerminators(m[k..])
  }

  predicate NoTerminator(s: string) {
    forall i :: 0 <= i < |s| ==> !IsTerminator(s[i])
  }

  predicate OnlyTerminators(s: string) {
    forall i :: 0 <= i < |s| ==> IsTerminator(s[i])
  }

  /**
   * `text.match(/[^.!?]+[.!?]+/g)`, with the empty list for `null`. At a
   * terminator the expression cannot start, so the scan moves on; elsewhere it
   * takes the maximal run of other characters and the maximal run of
   * terminators after it. A run that reaches the end without a terminator
   * matches at no later position either, so the scan stops there.
   */
  function Matches(s: string): seq<string>
    decreases |s|
  {
    if |s| == 0 then []
    else if IsTerminator(s[0]) then Matches(s[1..])
    else if Span(s, 0, NotTerminator) == |s| then []
    else [s[..SentenceEnd(s)]] + Matches(s[SentenceEnd(s)..])
  }

  /** Where the sentence read at the start of `s` ends: after the run of other characters and the run of terminators behind it. */
  function SentenceEnd(s: string): (r: nat)
    requires Span(s, 0, NotTerminator) < |s|
    ensures Span(s, 0, NotTerminator) < r <= |s|
  {
    Span(s, 0, NotTerminator) + Span(s, Span(s, 0, NotTerminator), IsTerminator)
  }

  /** `s` is leading terminators, then the sentences `ms` in order, then a fragment without terminator. */
  ghost predicate IsSentenceDecomposition(s: string, lead: string, ms: seq<string>, tail: string) {
    && s == lead + Flatten(ms) + tail
    && OnlyTerminators(lead)
    && NoTerminator(tail)
    && forall i :: 0 <= i < |ms| ==> IsSentence(ms[i])
  }

  lemma DecompositionSkip(c: char, s: string, lead: string, ms: seq<string>, tail: string)
    requires IsTerminator(c) && IsSentenceDecomposition(s, lead, ms, tail)
    ensures IsSentenceDecomposition([c] + s, [c] + lead, ms, tail)
  {
    assert [c] + s == [c] + lead + Flatten(ms) + tail;
  }

  lemma DecompositionCons(m: string, s: string, ms: seq<string>, tail: string)
    requires IsSentence(m) && IsSentenceDecomposition(s, "", ms, tail)
    ensures IsSentenceDecomposition(m + s, "", [m] + ms, tail)
  {
    assert ([m] + ms)[1..] == ms;
    assert Flatten([m] + ms) == m + Flatten(ms);
  }

  /** What one step of the scan at a character that may start a sentence reads is a sentence. */
  lemma ScanSentence(s: string, q: nat, r: nat)
    requires q == Span(s, 0, NotTerminator) && 0 < q < |s| && r == q + Span(s, q, IsTerminator)
    ensures IsSentence(s[..r]) && (r == |s| || !IsTerminator(s[r]))
  {
    var m := s[..r];
    assert forall i :: 0 <= i < r ==> m[i] == s[i];
    IsSentenceOf(m, q);
  }

  /** One step of the scan at a character that may start a sentence: the sentence it reads, and where it goes on. */
  lemma ScanStep(s: string) returns (r: nat)
    requires |s| > 0 && !IsTerminator(s[0]) && Span(s, 0, NotTerminator) < |s|
    ensures 0 < r <= |s| && IsSentence(s[..r])
    ensures r == |s| || !IsTerminator(s[r])
    ensures Matches(s) == [s[..r]] + Matches(s[r..])
  {
    r := SentenceEnd(s);
    ScanSentence(s, Span(s, 0, NotTerminator), r);
  }

  /** The matches, together with what the scan skips, rebuild the input. */
  lemma {:induction false} MatchesDecompose(s: string) returns (lead: string, tail: string)
    ensures IsSentenceDecomposition(s, lead, Matches(s), tail)
    decreases |s|
  {
    if |s| == 0 {
      lead, tail := "", "";
      assert Flatten<char>([]) == [];
    } else if IsTerminator(s[0]) {
      var lead', tail' := MatchesDecompose(s[1..]);
      lead, tail := [s[0]] + lead', tail';
      SkipStep(s, lead', tail');
    } else if Span(s, 0, NotTerminator) == |s| {
      lead, tail := "", s;
      assert Flatten<char>([]) == [];
    } else {
      var r := ScanStep(s);
      var lead', tail' := MatchesDecompose(s[r..]);
      ConsStep(s, r, lead', tail');
      lead, tail := "", tail';
    }
  }

  /** A skipped leading terminator joins the leading part of the decomposition. */
  lemma SkipStep(s: string, lead: string, tail: string)
    requires |s| > 0 && IsTerminator(s[0])
    requires IsSentenceDecomposition(s[1..], lead, Matches(s[1..]), tail)
    ensures IsSentenceDecomposition(s, [s[0]] + lead, Matches(s), tail)
  {
    DecompositionSkip(s[0], s[1..], lead, Matches(s[1..]), tail);
    assert [s[0]] + s[1..] == s;
  }

  /** A sentence read by the scan heads the decomposition of the rest. */
  lemma ConsStep(s: string, r: nat, lead: string, tail: string)
    requires 0 < r <= |s| && IsSentence(s[..r]) && (r == |s| || !IsTerminator(s[r]))
    requires Matches(s) == [s[..r]] + Matches(s[r..])
    requires IsSentenceDecomposition(s[r..], lead, Matches(s[r..]), tail)
    ensures IsSentenceDecomposition(s, "", Matches(s), tail)
  {
    assert lead == [] by {
      assert r < |s| ==> s[r..][0] == s[r];
    }
    DecompositionCons(s[..r], s[r..], Matches(s[r..]), tail);
    assert s[..r] + s[r..] == s;
  }


  /** A run of other characters, then terminators to the end, is a sentence. */
  lemma IsSentenceOf(m: string, k: nat)
    requires 0 < k < |m|
    requires forall i :: 0 <= i < k ==> !IsTerminator(m[i])
    requires forall i :: k <= i < |m| ==> IsTerminator(m[i])
    ensures IsSentence(m)
  {
    SpanUnique(m, 0, NotTerminator, k);
    assert forall i :: 0 <= i < |m| - k ==> m[k..][i] == m[k + i];
  }

  /** The scan at the start of `m + rest` reads exactly the sentence `m` when `rest` does not start with a terminator. */
  lemma ScanReadsSentence(m: string, rest: string)
    requires IsSentence(m)
    requires rest == [] || !IsTerminator(rest[0])
    ensures var s := m + rest; var q := Span(s, 0, NotTerminator);
            q < |s| && q + Span(s, q, IsTerminator) == |m|
  {
    var s := m + rest;
    var k := Span(m, 0, NotTerminator);
    SpanOfConcat(m, rest, 0, NotTerminator);
    assert forall i :: k <= i < |m| ==> s[i] == m[k..][i - k];
    assert |m| == |s| || s[|m|] == rest[0];
    SpanUnique(s, k, IsTerminator, |m| - k);
  }

  /** A sentence followed by text that does not start with a terminator is the first match. */
  lemma MatchesCons(m: string, rest: string)
    requires IsSentence(m)
    requires rest == [] || !IsTerminator(rest[0])
    ensures Matches(m + rest) == [m] + Matches(rest)
  {
    var s := m + rest;
    ScanReadsSentence(m, rest);
    assert s[0] == m[0];
    assert s[..|m|] == m;
    assert s[|m|..] == rest;
  }

  /** What follows the first sentence of a decomposition does not start with a terminator. */
  lemma DecompositionRestStart(ms: seq<string>, tail: string)
    requires NoTerminator(tail)
    requires forall i :: 0 <= i < |ms| ==> IsSentence(ms[i])
    ensures var rest := Flatten(ms) + tail; rest == [] || !IsTerminator(rest[0])
  {
    if ms != [] {
      assert Flatten(ms) == ms[0] + Flatten(ms[1..]);
      assert (Flatten(ms) + tail)[0] == ms[0][0];
    } else {
      assert Flatten(ms) + tail == tail;
    }
  }

  /** A leading terminator is skipped by the scan and by the decomposition alike. */
  lemma DecompositionDropLead(s: string, lead: string, ms: seq<string>, tail: string)
    requires IsSentenceDecomposition(s, lead, ms, tail) && lead != []
    ensures IsSentenceDecomposition(s[1..], lead[1..], ms, tail)
    ensures Matches(s) == Matches(s[1..])
  {
    assert s[0] == lead[0];
    assert s[1..] == lead[1..] + Flatten(ms) + tail;
  }

  /** The sentences after the first, with the fragment, decompose what follows the first sentence. */
  lemma DecompositionDropSentence(s: string, ms: seq<string>, tail: string)
    requires IsSentenceDecomposition(s, "", ms, tail) && ms != []
    ensures IsSentenceDecomposition(Flatten(ms[1..]) + tail, "", ms[1..], tail)
  {
  }

  /** A first sentence is the first match; the scan goes on after it. */
  lemma DecompositionFirstMatch(s: string, ms: seq<string>, tail: string)
    requires IsSentenceDecomposition(s, "", ms, tail) && ms != []
    ensures Matches(s) == [ms[0]] + Matches(Flatten(ms[1..]) + tail)
  {
    var rest := Flatten(ms[1..]) + tail;
    assert s == ms[0] + rest;
    DecompositionRestStart(ms[1..], tail);
    MatchesCons(ms[0], rest);
  }

  /** Text without a terminator has no match. */
  lemma MatchesFragment(s: string)
    requires NoTerminator(s)
    ensures Matches(s) == []
  {
    if |s| > 0 {
      assert Span(s, 0, NotTerminator) == |s|;
    }
  }

  /** The decomposition is unique: any way of reading `s` as terminators, sentences and a fragment yields the matches. */
  lemma {:induction false} MatchesUnique(s: string, lead: string, ms: seq<string>, tail: string)
    requires IsSentenceDecomposition(s, lead, ms, tail)
    ensures ms == Matches(s)
    decreases |s|
  {
    if lead != [] {
      DecompositionDropLead(s, lead, ms, tail);
      MatchesUnique(s[1..], lead[1..], ms, tail);
    } else if ms == [] {
      assert s == tail;
      MatchesFragment(s);
    } else {
      DecompositionDropSentence(s, ms, tail);
      DecompositionFirstMatch(s, ms, tail);
      MatchesUnique(Flatten(ms[1..]) + tail, "", ms[1..], tail);
    }
  }

  /** A fragment without terminator after the input changes no match: trailing text is never a sentence. */
  lemma MatchesIgnoreFragment(p: string, fragment: string)
    requires NoTerminator(fragment)
    ensures Matches(p + fragment) == Matches(p)
  {
    var lead, tail := MatchesDecompose(p);
    assert p + fragment == lead + Flatten(Matches(p)) + (tail + fragment);
    MatchesUnique(p + fragment, lead, Matches(p), tail + fragment);
  }

  /** `text.match(...) || [text]`: without any match the whole text is the only sentence. */
  function Sentences(text: string): seq<string>
  {
    var ms := Matches(text);
    if |ms| == 0 then [text] else ms
  }

  /** `sentence.trim()` for each sentence, in order. */
  function TrimEach(ss: seq<string>): (ts: seq<string>)
    ensures |ts| == |ss|
    ensures forall i :: 0 <= i < |ss| ==> ts[i] == Trim(ss[i])
  {
    seq(|ss|, i requires 0 <= i < |ss| => Trim(ss[i]))
  }

  /**
   * The loop of `splitIntoThread` from a pending chunk `current` on: an empty
   * `current` takes the next sentence, a sentence that still fits is appended
   * after a space, anything else closes `current`.
   */
  function PackFrom(ts: seq<string>, current: string): seq<string>
    decreases |ts|
  {
    if |ts| == 0 then (if current == "" then [] else [current])
    else if current == "" then PackFrom(ts[1..], ts[0])
    else if |current + " " + ts[0]| <= ChunkBudget then PackFrom(ts[1..], current + " " + ts[0])
    else [current] + PackFrom(ts[1..], ts[0])
  }

  function Pack(ts: seq<string>): seq<string>
  {
    PackFrom(ts, "")
  }

  predicate NoEmpty(ts: seq<string>) {
    forall i :: 0 <= i < |ts| ==> ts[i] != ""
  }

  function JoinEach(gs: seq<seq<string>>): (cs: seq<string>)
    ensures |cs| == |gs|
    ensures forall i :: 0 <= i < |gs| ==> cs[i] == Join(gs[i], " ")
  {
    seq(|gs|, i requires 0 <= i < |gs| => Join(gs[i], " "))
  }

  /**
   * Greedy packing, stated without the loop: the groups cover the sentences
   * in order, a group of two or more sentences fits the budget, and a group
   * is closed only because the next sentence would not fit.
   */
  ghost predicate IsGreedyGrouping(ts: seq<string>, gs: seq<seq<string>>) {
    && Flatten(gs) == ts
    && (forall i :: 0 <= i < |gs| ==> |gs[i]| > 0)
    && (forall i :: 0 <= i < |gs| ==> |gs[i]| >= 2 ==> |Join(gs[i], " ")| <= ChunkBudget)
    && (forall i :: 0 <= i < |gs| - 1 ==> |Join(gs[i], " ")| + 1 + |gs[i + 1][0]| > ChunkBudget)
  }

  /** The sentences behind each chunk of `PackFrom(ts, Join(cur, " "))`. */
  ghost function GroupsFrom(ts: seq<string>, cur: seq<string>): seq<seq<string>>
    decreases |ts|
  {
    if |ts| == 0 then (if cur == [] then [] else [cur])
    else if cur == [] then GroupsFrom(ts[1..], [ts[0]])
    else if |Join(cur, " ") + " " + ts[0]| <= ChunkBudget then GroupsFrom(ts[1..], cur + [ts[0]])
    else [cur] + GroupsFrom(ts[1..], [ts[0]])
  }

  lemma {:induction false} JoinNonEmpty(cur: seq<string>)
    requires NoEmpty(cur)
    ensures Join(cur, " ") == "" <==> cur == []
  {
    if |cur| >= 2 {
      assert |Join(cur, " ")| >= |cur[0]|;
    }
  }

  lemma {:induction false} PackFromIsJoinOfGroups(ts: seq<string>, cur: seq<string>)
    requires NoEmpty(ts) && NoEmpty(cur)
    ensures PackFrom(ts, Join(cur, " ")) == JoinEach(GroupsFrom(ts, cur))
    decreases |ts|
  {
    JoinNonEmpty(cur);
    if |ts| == 0 {
    } else if cur == [] {
      assert Join([ts[0]], " ") == ts[0];
      PackFromIsJoinOfGroups(ts[1..], [ts[0]]);
    } else if |Join(cur, " ") + " " + ts[0]| <= ChunkBudget {
      JoinSnoc(cur, ts[0], " ");
      PackFromIsJoinOfGroups(ts[1..], cur + [ts[0]]);
    } else {
      assert Join([ts[0]], " ") == ts[0];
      PackFromIsJoinOfGroups(ts[1..], [ts[0]]);
    }
  }

  /** The first group of `GroupsFrom(ts, cur)` starts with the pending group `cur`. */
  lemma {:induction false} GroupsFromHead(ts: seq<string>, cur: seq<string>)
    requires NoEmpty(ts) && NoEmpty(cur) && cur != []
    ensures var gs := GroupsFrom(ts, cur); |gs| > 0 && |gs[0]| >= |cur| && gs[0][..|cur|] == cur
    decreases |ts|
  {
    JoinNonEmpty(cur);
    if |ts| > 0 && |Join(cur, " ") + " " + ts[0]| <= ChunkBudget {
      GroupsFromHead(ts[1..], cur + [ts[0]]);
      var g0 := GroupsFrom(ts, cur)[0];
      assert g0[..|cur| + 1][..|cur|] == g0[..|cur|];
    }
  }

  /** Closing a group that the next group's first sentence would overflow keeps the grouping greedy. */
  lemma GreedyCons(cur: seq<string>, rest: seq<string>, gs: seq<seq<string>>)
    requires cur != [] && (|cur| >= 2 ==> |Join(cur, " ")| <= ChunkBudget)
    requires IsGreedyGrouping(rest, gs)
    requires |gs| > 0 ==> |Join(cur, " ")| + 1 + |gs[0][0]| > ChunkBudget
    ensures IsGreedyGrouping(cur + rest, [cur] + gs)
  {
    var all := [cur] + gs;
    assert all[1..] == gs;
    assert Flatten(all) == cur + Flatten(gs);
    forall i | 0 <= i < |all| - 1
      ensures |Join(all[i], " ")| + 1 + |all[i + 1][0]| > ChunkBudget
    {
      if i > 0 {
        assert all[i] == gs[i - 1] && all[i + 1] == gs[i];
      }
    }
  }

  /** At the end of the input the pending group, if any, is the last group. */
  lemma GroupsFromGreedyEnd(cur: seq<string>)
    requires |cur| >= 2 ==> |Join(cur, " ")| <= ChunkBudget
    ensures IsGreedyGrouping(cur, GroupsFrom([], cur))
  {
    assert Flatten<string>([]) == [];
    if cur != [] {
      GreedyCons(cur, [], []);
      assert cur + [] == cur;
    }
  }

  /** A sentence that overflows the pending group closes it and opens the next group. */
  lemma GroupsFromGreedyClose(ts: seq<string>, cur: seq<string>)
    requires NoEmpty(ts) && |ts| > 0 && cur != []
    requires |cur| >= 2 ==> |Join(cur, " ")| <= ChunkBudget
    requires |Join(cur, " ") + " " + ts[0]| > ChunkBudget
    requires IsGreedyGrouping([ts[0]] + ts[1..], GroupsFrom(ts[1..], [ts[0]]))
    ensures IsGreedyGrouping(cur + ts, [cur] + GroupsFrom(ts[1..], [ts[0]]))
  {
    GroupsFromHead(ts[1..], [ts[0]]);
    var tailGs := GroupsFrom(ts[1..], [ts[0]]);
    assert tailGs[0][0] == tailGs[0][..1][0];
    assert [ts[0]] + ts[1..] == ts;
    GreedyCons(cur, ts, tailGs);
  }

  /** What the loop keeps: its groups are a greedy grouping of the pending group followed by the sentences still to come. */
  lemma {:induction false} GroupsFromGreedy(ts: seq<string>, cur: seq<string>)
    requires NoEmpty(ts) && NoEmpty(cur)
    requires |cur| >= 2 ==> |Join(cur, " ")| <= ChunkBudget
    ensures IsGreedyGrouping(cur + ts, GroupsFrom(ts, cur))
    decreases |ts|
  {
    JoinNonEmpty(cur);
    if |ts| == 0 {
      assert cur + ts == cur;
      GroupsFromGreedyEnd(cur);
    } else if cur == [] {
      GroupsFromGreedy(ts[1..], [ts[0]]);
      assert [ts[0]] + ts[1..] == ts;
      assert cur + ts == ts;
    } else if |Join(cur, " ") + " " + ts[0]| <= ChunkBudget {
      JoinSnoc(cur, ts[0], " ");
      GroupsFromGreedy(ts[1..], cur + [ts[0]]);
      assert cur + [ts[0]] + ts[1..] == cur + ts;
    } else {
      GroupsFromGreedy(ts[1..], [ts[0]]);
      GroupsFromGreedyClose(ts, cur);
    }
  }

  /** The groups behind `Pack(ts)`. */
  lemma PackGrouping(ts: seq<string>) returns (gs: seq<seq<string>>)
    requires NoEmpty(ts)
    ensures IsGreedyGrouping(ts, gs) && Pack(ts) == JoinEach(gs)
  {
    gs := GroupsFrom(ts, []);
    assert Join([], " ") == "";
    PackFromIsJoinOfGroups(ts, []);
    GroupsFromGreedy(ts, []);
    assert [] + ts == ts;
  }

  /** Packing is greedy: the chunks are the joins of a greedy grouping of the sentences. */
  lemma PackIsGreedy(ts: seq<string>)
    requires NoEmpty(ts)
    ensures exists gs :: IsGreedyGrouping(ts, gs) && Pack(ts) == JoinEach(gs)
  {
    var gs := PackGrouping(ts);
  }

  /** Joining the chunks with single spaces gives back the sentences joined the same way. */
  lemma {:induction false} PackPreservesText(ts: seq<string>)
    requires NoEmpty(ts)
    ensures Join(Pack(ts), " ") == Join(ts, " ")
  {
    var gs := GroupsFrom(ts, []);
    assert Join([], " ") == "";
    PackFromIsJoinOfGroups(ts, []);
    GroupsFromGreedy(ts, []);
    assert [] + ts == ts;
    JoinOfGroups(gs);
  }

  lemma {:induction false} JoinOfGroups(gs: seq<seq<string>>)
    requires forall i :: 0 <= i < |gs| ==> |gs[i]| > 0
    ensures Join(JoinEach(gs), " ") == Join(Flatten(gs), " ")
    decreases |gs|
  {
    if |gs| == 1 {
      assert gs[1..] == [];
      assert Flatten(gs) == gs[0] + Flatten<string>([]);
      assert Flatten(gs) == gs[0];
    } else if |gs| > 1 {
      JoinOfGroups(gs[1..]);
      assert JoinEach(gs)[1..] == JoinEach(gs[1..]);
      assert |Flatten(gs[1..])| > 0 by {
        assert Flatten(gs[1..]) == gs[1] + Flatten(gs[2..]);
      }
      JoinConcat(gs[0], Flatten(gs[1..]), " ");
    }
  }

  /** The chunk bodies of the thread, before the markers are added. */
  function Chunks(text: string): seq<string>
  {
    Pack(TrimEach(Sentences(text)))
  }

  /** `` `${chunk} (${i + 1}/${total})` `` */
  function WithMarker(chunk: string, index: nat, total: nat): string
  {
    chunk + " (" + Decimal(index) + "/" + Decimal(total) + ")"
  }

  /** `chunks.map((chunk, i) => ...)`: one marked post per chunk. */
  function Label(chunks: seq<string>): (posts: seq<string>)
    ensures |posts| == |chunks|
  {
    seq(|chunks|, i requires 0 <= i < |chunks| => WithMarker(chunks[i], i + 1, |chunks|))
  }

  /** `splitIntoThread(text)`. */
  function SplitIntoThread(text: string): seq<string>
  {
    Label(Chunks(text))
  }

  // ---- reading a marker back ----

  datatype Marker = Marker(body: string, index: nat, total: nat)

  /** The number of decimal digits at the end of `s`. */
  function TrailingDigits(s: string): (n: nat)
    ensures n <= |s| && AllDigits(s[|s| - n..])
    ensures n == |s| || !IsDigit(s[|s| - n - 1])
  {
    if |s| > 0 && IsDigit(s[|s| - 1]) then
      var n := 1 + TrailingDigits(s[..|s| - 1]);
      assert s[|s| - n..] == s[..|s| - 1][|s| - n..] + [s[|s| - 1]];
      n
    else 0
  }

  lemma {:induction false} TrailingDigitsOf(p: string, d: string)
    requires AllDigits(d)
    requires p == [] || !IsDigit(p[|p| - 1])
    ensures TrailingDigits(p + d) == |d|
    decreases |d|
  {
    if d == [] {
      assert p + d == p;
    } else {
      var s := p + d;
      assert s[|s| - 1] == d[|d| - 1];
      assert s[..|s| - 1] == p + d[..|d| - 1];
      TrailingDigitsOf(p, d[..|d| - 1]);
    }
  }

  /** Reads `<prefix><sep><digits>` from the right: the prefix and the number. */
  function SplitNumber(s: string, sep: char): Option<(string, nat)>
  {
    var n := TrailingDigits(s);
    if n == 0 || n == |s| || s[|s| - n - 1] != sep then None
    else Some((s[..|s| - n - 1], ParseDecimal(s[|s| - n..])))
  }

  lemma SplitNumberOf(p: string, sep: char, n: nat)
    requires !IsDigit(sep)
    ensures SplitNumber(p + [sep] + Decimal(n), sep) == Some((p, n))
  {
    var d := Decimal(n);
    var s := p + [sep] + d;
    TrailingDigitsOf(p + [sep], d);
    assert s[|s| - |d| - 1] == sep;
    assert s[..|s| - |d| - 1] == p;
    assert s[|s| - |d|..] == d;
    ParseDecimalInverse(n);
  }

  /** Splits a post into its chunk and its ` (i/N)` marker, reading the marker from the right. */
  function StripMarker(post: string): Option<Marker>
  {
    if !EndsWith(post, ")") then None
    else
      var outer := SplitNumber(post[..|post| - 1], '/');
      if outer.None? then None
      else
        var inner := SplitNumber(outer.value.0, '(');
        if inner.None? then None
        else
          var b := inner.value.0;
          if EndsWith(b, " ") then Some(Marker(b[..|b| - 1], inner.value.1, outer.value.1)) else None
  }

  lemma StripMarkerOf(body: string, a: string, b: string, index: nat, total: nat)
    requires SplitNumber(body, '/') == Some((a, total))
    requires SplitNumber(a, '(') == Some((b, index))
    requires EndsWith(b, " ")
    ensures StripMarker(body + [')']) == Some(Marker(b[..|b| - 1], index, total))
  {
    var post := body + [')'];
    assert post[..|post| - 1] == body;
  }

  /** The marker added to a chunk can be read back, and the chunk comes back unchanged. */
  lemma MarkerRoundTrip(chunk: string, index: nat, total: nat)
    ensures StripMarker(WithMarker(chunk, index, total)) == Some(Marker(chunk, index, total))
  {
    var post := WithMarker(chunk, index, total);
    var di, dt := Decimal(index), Decimal(total);
    var b := chunk + " ";
    var a := b + ['('] + di;
    var body := a + ['/'] + dt;
    assert post == body + [')'];
    SplitNumberOf(a, '/', total);
    SplitNumberOf(b, '(', index);
    assert b[..|b| - 1] == chunk;
    StripMarkerOf(body, a, b, index, total);
  }

  /** Every labelled post reads back as its chunk, its 1-based position and the number of posts. */
  lemma LabelMarkers(chunks: seq<string>)
    ensures forall i :: 0 <= i < |chunks| ==>
              StripMarker(Label(chunks)[i]) == Some(Marker(chunks[i], i + 1, |chunks|))
  {
    forall i | 0 <= i < |chunks|
      ensures StripMarker(Label(chunks)[i]) == Some(Marker(chunks[i], i + 1, |chunks|))
    {
      MarkerRoundTrip(chunks[i], i + 1, |chunks|);
    }
  }

  /** Every post is its chunk followed by the marker `(i+1/N)`, where `N` is the number of posts. */
  lemma ThreadMarkers(text: string)
    ensures |SplitIntoThread(text)| == |Chunks(text)|
    ensures forall i :: 0 <= i < |SplitIntoThread(text)| ==>
              StripMarker(SplitIntoThread(text)[i]) == Some(Marker(Chunks(text)[i], i + 1, |SplitIntoThread(text)|))
  {
    LabelMarkers(Chunks(text));
  }

  // ---- end-to-end properties of splitIntoThread ----

  /** A sentence ends in a terminator, which trimming keeps. */
  lemma SentenceTrimsNonEmpty(m: string)
    requires IsSentence(m)
    ensures Trim(m) != ""
  {
    var k := Span(m, 0, NotTerminator);
    assert m[|m| - 1] == m[k..][|m| - 1 - k];
    TrimNonEmpty(m, |m| - 1);
  }

  /** Every match is a sentence. */
  lemma MatchesAreSentences(text: string)
    ensures forall i :: 0 <= i < |Matches(text)| ==> IsSentence(Matches(text)[i])
  {
    var lead, tail := MatchesDecompose(text);
  }

  /** No match trims to nothing. */
  lemma TrimmedSentencesNonEmpty(text: string)
    ensures NoEmpty(TrimEach(Matches(text)))
  {
    var ms := Matches(text);
    MatchesAreSentences(text);
    forall i | 0 <= i < |ms|
      ensures Trim(ms[i]) != ""
    {
      SentenceTrimsNonEmpty(ms[i]);
    }
  }

  /** Sentence order is kept and nothing is dropped or repeated: the chunk bodies re-join to the trimmed sentences. */
  lemma ThreadPreservesSentences(text: string)
    requires Matches(text) != []
    ensures Join(Chunks(text), " ") == Join(TrimEach(Matches(text)), " ")
  {
    TrimmedSentencesNonEmpty(text);
    PackPreservesText(TrimEach(Matches(text)));
  }

  /** The groups of trimmed sentences behind the chunks of a text that is not blank. */
  lemma ThreadGrouping(text: string) returns (gs: seq<seq<string>>)
    requires Trim(text) != ""
    ensures IsGreedyGrouping(TrimEach(Sentences(text)), gs) && Chunks(text) == JoinEach(gs)
  {
    var ts := TrimEach(Sentences(text));
    if Matches(text) != [] {
      TrimmedSentencesNonEmpty(text);
    }
    gs := PackGrouping(ts);
  }

  /** The chunks are the greedy packing of the trimmed sentences. */
  lemma ThreadIsGreedy(text: string)
    requires Trim(text) != ""
    ensures exists gs :: IsGreedyGrouping(TrimEach(Sentences(text)), gs) && Chunks(text) == JoinEach(gs)
  {
    var gs := ThreadGrouping(text);
  }

  /** Text with a match holds a terminator. */
  lemma MatchedTerminator(text: string) returns (k: nat)
    requires Matches(text) != []
    ensures k < |text| && IsTerminator(text[k])
  {
    k := if IsTerminator(text[0]) then 0 else Span(text, 0, NotTerminator);
  }

  /** Text holding a terminated sentence is not blank. */
  lemma SentencesNotBlank(text: string)
    requires Matches(text) != []
    ensures Trim(text) != ""
  {
    var k := MatchedTerminator(text);
    TrimNonEmpty(text, k);
  }

  /** A chunk longer than the budget is a single sentence; only a single sentence can exceed the budget. */
  lemma LongChunkIsOneSentence(text: string, i: nat)
    requires i < |Chunks(text)| && |Chunks(text)[i]| > ChunkBudget
    ensures Chunks(text)[i] in TrimEach(Sentences(text))
  {
    if Matches(text) != [] {
      SentencesNotBlank(text);
    } else {
      assert TrimEach(Sentences(text)) == [Trim(text)];
      assert [Trim(text)][1..] == [];
      assert Chunks(text) == PackFrom([], Trim(text));
    }
    var gs := ThreadGrouping(text);
    assert |gs[i]| == 1;
    FlattenMember(gs, i);
  }

  lemma {:induction false} FlattenMember(gs: seq<seq<string>>, i: nat)
    requires i < |gs| && |gs[i]| == 1
    ensures gs[i][0] in Flatten(gs)
    decreases i
  {
    if i == 0 {
      assert Flatten(gs)[0] == gs[0][0];
    } else {
      FlattenMember(gs[1..], i - 1);
      assert Flatten(gs) == gs[0] + Flatten(gs[1..]);
    }
  }

  /** A sentence longer than the budget is never split or merged: it is a chunk of its own. */
  lemma LongSentenceStandsAlone(text: string, k: nat)
    requires k < |Sentences(text)| && |Trim(Sentences(text)[k])| > ChunkBudget
    ensures Trim(Sentences(text)[k]) in Chunks(text)
  {
    if Matches(text) != [] {
      SentencesNotBlank(text);
    }
    var gs := ThreadGrouping(text);
    LongStandsAlone(TrimEach(Sentences(text)), gs, k);
  }

  /** In a greedy grouping, an element longer than the budget is a group of its own. */
  lemma LongStandsAlone(ts: seq<string>, gs: seq<seq<string>>, k: nat)
    requires IsGreedyGrouping(ts, gs) && k < |ts| && |ts[k]| > ChunkBudget
    ensures ts[k] in JoinEach(gs)
  {
    var gi := GroupOf(gs, k);
    assert |gs[gi]| == 1 by {
      if |gs[gi]| >= 2 {
        JoinLongest(gs[gi], ts[k]);
      }
    }
    assert gs[gi][0] == ts[k];
    assert Join(gs[gi], " ") == ts[k];
    assert JoinEach(gs)[gi] == ts[k];
  }


  /** The group that holds the `k`-th element of the flattening. */
  lemma {:induction false} GroupOf(gs: seq<seq<string>>, k: nat) returns (gi: nat)
    requires k < |Flatten(gs)|
    ensures gi < |gs| && Flatten(gs)[k] in gs[gi]
    decreases |gs|
  {
    assert Flatten(gs) == gs[0] + Flatten(gs[1..]);
    if k >= |gs[0]| {
      var gj := GroupOf(gs[1..], k - |gs[0]|);
      gi := gj + 1;
      assert Flatten(gs)[k] == Flatten(gs[1..])[k - |gs[0]|];
    } else {
      gi := 0;
      assert Flatten(gs)[k] == gs[0][k];
    }
  }

  /** A join of two or more parts is longer than each part. */
  lemma {:induction false} JoinLongest(g: seq<string>, t: string)
    requires |g| >= 2 && t in g
    ensures |Join(g, " ")| > |t|
  {
    if |g| == 2 {
    } else if t == g[0] {
    } else {
      JoinLongest(g[1..], t);
    }
  }

  /** Empty or blank input yields no post at all; anything else yields at least one. */
  lemma ThreadEmptyIff(text: string)
    ensures SplitIntoThread(text) == [] <==> Trim(text) == ""
  {
    var ts := TrimEach(Sentences(text));
    if Matches(text) != [] {
      SentencesNotBlank(text);
      TrimmedSentencesNonEmpty(text);
      PackFromNonEmpty(ts[1..], ts[0]);
    } else {
      assert ts == [Trim(text)];
      assert Pack(ts) == PackFrom([], Trim(text));
    }
  }

  lemma {:induction false} PackFromNonEmpty(ts: seq<string>, current: string)
    requires current != "" && NoEmpty(ts)
    ensures PackFrom(ts, current) != []
    decreases |ts|
  {
    if |ts| > 0 {
      if |current + " " + ts[0]| <= ChunkBudget {
        PackFromNonEmpty(ts[1..], current + " " + ts[0]);
      }
    }
  }

  /** Without a terminated sentence the whole trimmed text is the single post `(1/1)`. */
  lemma NoSentenceIsOnePost(text: string)
    requires Matches(text) == [] && Trim(text) != ""
    ensures SplitIntoThread(text) == [Trim(text) + " (1/1)"]
  {
    var t := Trim(text);
    assert TrimEach(Sentences(text)) == [t];
    assert [t][1..] == [];
    assert Pack([t]) == PackFrom([], t);
    assert Chunks(text) == [t];
    LabelSingle(t);
  }

  lemma LabelSingle(t: string)
    ensures Label([t]) == [t + " (1/1)"]
  {
    assert DigitChar(1) == '1';
    assert Decimal(1) == "1";
    assert WithMarker(t, 1, 1) == t + " (1/1)";
  }

  /** Once a sentence has matched, text after the last terminator is never posted. */
  lemma TrailingFragmentDropped(p: string, fragment: string)
    requires Matches(p) != [] && NoTerminator(fragment)
    ensures SplitIntoThread(p + fragment) == SplitIntoThread(p)
  {
    MatchesIgnoreFragment(p, fragment);
  }

  /** When every sentence fits the budget and there are fewer than 1000 posts, every post fits `MaxLength`. */
  lemma PostsFitMaxLength(text: string)
    requires forall s :: s in TrimEach(Sentences(text)) ==> |s| <= ChunkBudget
    requires |Chunks(text)| < 1000
    ensures forall i :: 0 <= i < |SplitIntoThread(text)| ==> |SplitIntoThread(text)[i]| <= MaxLength
  {
    var cs := Chunks(text);
    forall i | 0 <= i < |cs|
      ensures |SplitIntoThread(text)[i]| <= MaxLength
    {
      if |cs[i]| > ChunkBudget {
        LongChunkIsOneSentence(text, i);
      }
      DecimalWidth(i + 1);
      DecimalWidth(|cs|);
    }
  }

  /** A short sentence, with or without one space in front. */
  lemma ExampleSentence(m: string, k: nat)
    requires (m == "I walked." && k == 8) || (m == " I coded." && k == 8) || (m == " I rested." && k == 9)
    ensures IsSentence(m)
  {
    IsSentenceOf(m, k);
  }

  /** A single sentence is its own only match. */
  lemma OneMatch(c: string)
    requires IsSentence(c)
    ensures Matches(c) == [c]
  {
    MatchesCons(c, "");
    assert c + "" == c;
    assert Matches("") == [];
  }

  /** A sentence in front of text that does not start with a terminator is prepended to its matches. */
  lemma PrependMatch(a: string, rest: string, ms: seq<string>)
    requires IsSentence(a) && (rest == [] || !IsTerminator(rest[0])) && Matches(rest) == ms
    ensures Matches(a + rest) == [a] + ms
  {
    MatchesCons(a, rest);
  }

  /** Three sentences in a row, the later two starting with something other than a terminator, are the three matches. */
  lemma ThreeMatches(a: string, b: string, c: string)
    requires IsSentence(a) && IsSentence(b) && IsSentence(c)
    requires !IsTerminator(b[0]) && !IsTerminator(c[0])
    ensures Matches(a + b + c) == [a, b, c]
  {
    OneMatch(c);
    PrependMatch(b, c, [c]);
    assert (b + c)[0] == b[0];
    PrependMatch(a, b + c, [b, c]);
    assert a + b + c == a + (b + c);
  }

  /** The journal example: the scan reads three sentences, each keeping the space in front of it. */
  lemma ExampleMatches(a: string, b: string, c: string)
    requires a == "I walked." && b == " I coded." && c == " I rested."
    ensures Matches(a + b + c) == [a, b, c]
  {
    ExampleSentence(a, 8);
    ExampleSentence(b, 8);
    ExampleSentence(c, 9);
    ThreeMatches(a, b, c);
  }

  /** Trimming a sentence that may start with one space and ends with a terminator. */
  lemma TrimOneSpace(m: string, t: string)
    requires |t| > 0 && !IsWhitespace(t[0]) && IsTerminator(t[|t| - 1])
    requires m == t || m == " " + t
    ensures Trim(m) == t
  {
    if m != t {
      assert m[1..] == t;
    }
    assert Span(m, 0, IsWhitespace) == |m| - |t|;
    assert TrimStart(m) == t;
  }

  /** Sentences that carry at most one leading space trim to the sentences without it. */
  lemma TrimEachOneSpace(ms: seq<string>, ts: seq<string>)
    requires |ms| == |ts|
    requires forall i :: 0 <= i < |ts| ==> |ts[i]| > 0 && !IsWhitespace(ts[i][0]) && IsTerminator(ts[i][|ts[i]| - 1])
    requires forall i :: 0 <= i < |ts| ==> ms[i] == ts[i] || ms[i] == " " + ts[i]
    ensures TrimEach(ms) == ts
  {
    forall i | 0 <= i < |ts|
      ensures Trim(ms[i]) == ts[i]
    {
      TrimOneSpace(ms[i], ts[i]);
    }
  }

  lemma ExampleTrim(ms: seq<string>, ts: seq<string>)
    requires ms == ["I walked.", " I coded.", " I rested."] && ts == ["I walked.", "I coded.", "I rested."]
    ensures TrimEach(ms) == ts
  {
    assert ts[0][0] == 'I' && ts[0][|ts[0]| - 1] == '.';
    assert ts[1][0] == 'I' && ts[1][|ts[1]| - 1] == '.';
    assert ts[2][0] == 'I' && ts[2][|ts[2]| - 1] == '.';
    assert ms[0] == ts[0] && ms[1] == " " + ts[1] && ms[2] == " " + ts[2];
    TrimEachOneSpace(ms, ts);
  }

  lemma ExamplePack(ts: seq<string>, chunk: string)
    requires ts == ["I walked.", "I coded.", "I rested."] && chunk == "I walked. I coded. I rested."
    ensures Pack(ts) == [chunk]
  {
    var two := "I walked. I coded.";
    assert Pack(ts) == PackFrom(ts[1..], ts[0]);
    assert ts[1..][0] == "I coded." && ts[1..][1..] == ts[2..];
    assert ts[0] + " " + "I coded." == two;
    assert PackFrom(ts[1..], ts[0]) == PackFrom(ts[2..], two);
    assert ts[2..][0] == "I rested." && ts[2..][1..] == [];
    assert two + " " + "I rested." == chunk;
    assert PackFrom(ts[2..], two) == PackFrom([], chunk);
  }

  /** A text whose trimmed sentences pack into one chunk becomes that chunk, marked (1/1). */
  lemma OneChunkThread(text: string, ms: seq<string>, ts: seq<string>, chunk: string)
    requires Matches(text) == ms && ms != [] && TrimEach(ms) == ts && Pack(ts) == [chunk]
    ensures SplitIntoThread(text) == [chunk + " (1/1)"]
  {
    assert Chunks(text) == [chunk];
    LabelSingle(chunk);
  }

  /** The journal example end to end: three short sentences become one post, marked (1/1). */
  lemma ExampleThread(a: string, b: string, c: string, text: string, chunk: string)
    requires a == "I walked." && b == " I coded." && c == " I rested." && text == a + b + c
    requires chunk == "I walked. I coded. I rested."
    ensures SplitIntoThread(text) == [chunk + " (1/1)"]
  {
    var ms := [a, b, c];
    var ts := ["I walked.", "I coded.", "I rested."];
    ExampleMatches(a, b, c);
    ExampleTrim(ms, ts);
    ExamplePack(ts, chunk);
    OneChunkThread(text, ms, ts, chunk);
  }
}
