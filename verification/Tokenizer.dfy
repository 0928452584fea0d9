/** The maximal-munch tokenizer tokenize2 (bas2txt/bas2asc.py): candidate keywords
    are tracked in parallel, completed ones are flushed with overlaps resolved, and
    the scan steps back to just after the last keyword emitted. */
module Tokenizer {
  import opened Tokens
  import opened Sorting

  /** A tracked keyword [word, count, position]: word[..count+1] has matched so far. */
  datatype Track = Track(word: string, count: nat, pos: nat)

  function PosOf(t: Track): int { t.pos }

  function End(t: Track): nat { t.pos + |t.word| }

  function Slice(s: string, a: nat): string { if a <= |s| then s[a..] else [] }

  // ---- pick_keywords and trackwords ----

  /** A keyword with initial c, freshly tracked from position i, found among the first k. */
  ghost predicate PickedBefore(t: Track, c: char, i: nat, k: nat)
  {
    t.count == 0 && t.pos == i && t.word != [] && t.word[0] == c
    && exists j: nat | j < k && j < KEYWORDS :: Keyword(j) == t.word
  }

  ghost predicate Picked(t: Track, c: char, i: nat) { PickedBefore(t, c, i, KEYWORDS) }

  lemma PickedStep(c: char, i: nat, k: nat)
    requires k < KEYWORDS
    ensures forall t :: PickedBefore(t, c, i, k + 1) <==>
                        PickedBefore(t, c, i, k) || (Keyword(k) != [] && Keyword(k)[0] == c
                          && t == Track(Keyword(k), 0, i))
  {
    hide Keyword;
    forall t ensures PickedBefore(t, c, i, k + 1) <==>
                     PickedBefore(t, c, i, k) || (Keyword(k) != [] && Keyword(k)[0] == c
                       && t == Track(Keyword(k), 0, i))
    {
      if PickedBefore(t, c, i, k) {
        var j: nat :| j < k && Keyword(j) == t.word;
        assert j < k + 1 && j < KEYWORDS;
      }
      if Keyword(k) != [] && Keyword(k)[0] == c && t == Track(Keyword(k), 0, i) {
        assert k < k + 1 && Keyword(k) == t.word;
      }
    }
  }

  method PickKeywords(c: char, i: nat, picking: bool, words: seq<Track>, complete: seq<Track>)
    returns (words': seq<Track>, complete': seq<Track>)
    ensures forall t :: t in words' <==> t in words || (picking && Picked(t, c, i) && |t.word| > 1)
    ensures forall t :: t in complete' <==> t in complete || (picking && Picked(t, c, i) && |t.word| == 1)
  {
    hide Keyword, PickedBefore;
    words', complete' := words, complete;
    if !picking {
      return;
    }
    assert forall t :: !PickedBefore(t, c, i, 0) by { NonePickedBefore(c, i); }
    for k := 0 to KEYWORDS
      invariant forall t :: t in words' <==> t in words || (PickedBefore(t, c, i, k) && |t.word| > 1)
      invariant forall t :: t in complete' <==> t in complete || (PickedBefore(t, c, i, k) && |t.word| == 1)
    {
      PickedStep(c, i, k);
      var w := Keyword(k);
      if w != [] && w[0] == c {
        if |w| == 1 {
          complete' := complete' + [Track(w, 0, i)];
        } else {
          words' := words' + [Track(w, 0, i)];
        }
      }
    }
  }

  lemma NonePickedBefore(c: char, i: nat)
    ensures forall t :: !PickedBefore(t, c, i, 0)
  {
  }

  function Grown(t: Track): Track { t.(count := t.count + 1) }

  ghost predicate Unfinished(t: Track) { t.count + 1 < |t.word| }

  ghost predicate Continues(t: Track, c: char) { Unfinished(t) && t.word[t.count + 1] == c }

  method TrackWords(c: char, words: seq<Track>, complete: seq<Track>)
    returns (words': seq<Track>, complete': seq<Track>)
    requires forall t <- words :: Unfinished(t)
    ensures forall u <- words | Continues(u, c) :: Grown(u) in (if Unfinished(Grown(u)) then words' else complete')
    ensures forall t <- words' :: exists u <- words :: Continues(u, c) && t == Grown(u) && Unfinished(t)
    ensures forall t <- complete :: t in complete'
    ensures forall t <- complete' ::
              t in complete || exists u <- words :: Continues(u, c) && t == Grown(u) && !Unfinished(t)
  {
    words', complete' := [], complete;
    for j := 0 to |words|
      invariant forall k | 0 <= k < j && Continues(words[k], c) ::
                  Grown(words[k]) in (if Unfinished(Grown(words[k])) then words' else complete')
      invariant forall t <- words' :: exists u <- words :: Continues(u, c) && t == Grown(u) && Unfinished(t)
      invariant forall t <- complete :: t in complete'
      invariant forall t <- complete' ::
                  t in complete || exists u <- words :: Continues(u, c) && t == Grown(u) && !Unfinished(t)
    {
      var wc := words[j];
      assert wc in words;
      var k := wc.count + 1;
      if wc.word[k] == c {
        if |wc.word| - 1 == k {
          complete' := complete' + [wc.(count := k)];
        } else {
          words' := words' + [wc.(count := k)];
        }
      }
    }
  }

  // ---- suppress_nonmax and suppress_overlaps ----

  ghost predicate Ascending(ts: seq<Track>)
  {
    forall i, j | 0 <= i < j < |ts| :: ts[i].pos < ts[j].pos
  }

  /** One longest keyword per position, in order. */
  ghost predicate Thinned(complete: seq<Track>, r: seq<Track>)
  {
    && Ascending(r)
    && (forall t <- r :: t in complete)
    && (forall t <- complete :: Represented(r, t))
  }

  /** Keeps one longest keyword per position. */
  method SuppressNonmax(complete: seq<Track>) returns (r: seq<Track>)
    requires SortedBy(complete, PosOf)
    ensures Thinned(complete, r) && (complete != [] ==> r != [])
  {
    hide Represented;
    r := [];
    for k := 0 to |complete|
      invariant Ascending(r) && (r == [] <==> k == 0)
      invariant k > 0 ==> r[|r| - 1].pos == complete[k - 1].pos
      invariant forall t <- r :: t in complete
      invariant forall j | 0 <= j < k :: Represented(r, complete[j])
    {
      var t := complete[k];
      assert k > 0 ==> PosOf(complete[k - 1]) <= PosOf(complete[k]);
      ghost var r0 := r;
      if k > 0 && t.pos == r[|r| - 1].pos {
        if |t.word| > |r[|r| - 1].word| {
          r := r[|r| - 1 := t];
        }
      } else {
        r := r + [t];
      }
      LastRepresents(r, t);
      forall j | 0 <= j < k ensures Represented(r, complete[j]) {
        StillRepresented(r0, r, complete[j]);
      }
    }
  }

  lemma LastRepresents(r: seq<Track>, t: Track)
    requires r != [] && r[|r| - 1].pos == t.pos && |r[|r| - 1].word| >= |t.word|
    ensures Represented(r, t)
  {
  }

  lemma StillRepresented(r0: seq<Track>, r: seq<Track>, t: Track)
    requires Represented(r0, t) && |r0| <= |r|
    requires forall n | 0 <= n < |r0| :: r[n].pos == r0[n].pos && |r[n].word| >= |r0[n].word|
    ensures Represented(r, t)
  {
    var n :| 0 <= n < |r0| && r0[n].pos == t.pos && |r0[n].word| >= |t.word|;
    assert r[n].pos == r0[n].pos;
  }

  ghost predicate Represented(r: seq<Track>, t: Track)
  {
    exists n | 0 <= n < |r| :: r[n].pos == t.pos && |r[n].word| >= |t.word|
  }

  /** ts[1..k] all start before the first one ends and none is longer. */
  ghost predicate Shadowed(ts: seq<Track>, k: int)
  {
    k <= |ts| && forall j | 1 <= j < k :: ts[j].pos < End(ts[0]) && |ts[j].word| <= |ts[0].word|
  }

  /** ts[k] is the first to overlap ts[0] and be longer. */
  ghost predicate Displaces(ts: seq<Track>, k: int)
  {
    1 <= k < |ts| && Shadowed(ts, k) && ts[k].pos < End(ts[0]) && |ts[k].word| > |ts[0].word|
  }

  ghost predicate Overlap(t: Track, u: Track) { t.pos < End(u) && u.pos < End(t) }

  /** Another keyword overlaps t and is at least as long. */
  ghost predicate Beaten(ts: seq<Track>, t: Track)
  {
    exists u <- ts :: u != t && Overlap(t, u) && |u.word| >= |t.word|
  }

  ghost predicate Apart(r: seq<Track>) { forall i, j | 0 <= i < j < |r| :: End(r[i]) <= r[j].pos }

  /** No keyword that starts inside a kept one is longer. */
  ghost predicate Dominant(ts: seq<Track>, r: seq<Track>)
  {
    forall i, j | 0 <= i < |r| && 0 <= j < |ts| :: r[i].pos < ts[j].pos < End(r[i]) ==> |ts[j].word| <= |r[i].word|
  }

  /** What was dropped is beaten. */
  ghost predicate RestBeaten(ts: seq<Track>, k: nat, r: seq<Track>)
  {
    k <= |ts| && forall j | 0 <= j < k :: ts[j] in r || Beaten(ts, ts[j])
  }

  /** Kept of the first k: keywords in order that do not overlap, none with a longer one starting inside
      it, and every other one beaten. */
  ghost predicate Sifted(ts: seq<Track>, k: nat, r: seq<Track>)
  {
    k <= |ts| && (forall x <- r :: x in ts[..k]) && Apart(r) && Dominant(ts[..k], r) && RestBeaten(ts, k, r)
  }

  lemma Earlier(ts: seq<Track>, k: nat, r: seq<Track>)
    requires Ascending(ts) && k < |ts| && forall x <- r :: x in ts[..k]
    ensures forall x <- r :: x in ts && x.pos < ts[k].pos && x in ts[..k + 1]
    ensures ts[k] in ts[..k + 1] && forall j | 0 <= j < k :: ts[j].pos < ts[k].pos
    ensures ts[..k + 1] == ts[..k] + [ts[k]]
  {
    assert ts[..k + 1][k] == ts[k];
    forall x <- r ensures x in ts && x.pos < ts[k].pos && x in ts[..k + 1] {
      var i :| 0 <= i < k && ts[..k][i] == x;
      assert ts[i] == x && ts[..k + 1][i] == x;
    }
  }

  lemma StaysDominant(ts: seq<Track>, r: seq<Track>, t: Track)
    requires Apart(r) && Dominant(ts, r) && (forall x <- r :: x.pos < t.pos) && r != []
    requires t.pos < End(r[|r| - 1]) ==> |t.word| <= |r[|r| - 1].word|
    ensures Dominant(ts + [t], r)
  {
    forall i, j | 0 <= i < |r| && 0 <= j < |ts| + 1
      ensures r[i].pos < (ts + [t])[j].pos < End(r[i]) ==> |(ts + [t])[j].word| <= |r[i].word|
    {
      assert i < |r| - 1 ==> End(r[i]) <= r[|r| - 1].pos < t.pos;
      assert j < |ts| ==> (ts + [t])[j] == ts[j];
    }
  }

  /** The keywords before the last end before t starts, so t may follow them. */
  lemma BecomesLast(ts: seq<Track>, r: seq<Track>, t: Track)
    requires Apart(r) && Dominant(ts, r) && (forall i | 0 <= i < |r| :: End(r[i]) <= t.pos)
    requires forall j | 0 <= j < |ts| :: ts[j].pos < t.pos
    ensures Apart(r + [t]) && Dominant(ts + [t], r + [t])
  {
    var r' := r + [t];
    forall i, j | 0 <= i < |r'| && 0 <= j < |ts| + 1
      ensures r'[i].pos < (ts + [t])[j].pos < End(r'[i]) ==> |(ts + [t])[j].word| <= |r'[i].word|
    {
      assert i < |r| ==> r'[i] == r[i];
      assert j < |ts| ==> (ts + [t])[j] == ts[j];
    }
  }

  lemma SiftAppends(ts: seq<Track>, k: nat, r: seq<Track>)
    requires Ascending(ts) && k < |ts| && Sifted(ts, k, r)
    requires r != [] ==> End(r[|r| - 1]) <= ts[k].pos
    ensures Sifted(ts, k + 1, r + [ts[k]])
  {
    hide Beaten, Dominant;
    Earlier(ts, k, r);
    forall i | 0 <= i < |r| ensures End(r[i]) <= ts[k].pos {
      assert i < |r| - 1 ==> End(r[i]) <= r[|r| - 1].pos;
      assert r[|r| - 1] in r;
    }
    hide Apart;
    BecomesLast(ts[..k], r, ts[k]);
  }

  lemma SiftDrops(ts: seq<Track>, k: nat, r: seq<Track>)
    requires Ascending(ts) && k < |ts| && Sifted(ts, k, r) && r != []
    requires var last := r[|r| - 1]; ts[k].pos < End(last) && |ts[k].word| <= |last.word|
    ensures Sifted(ts, k + 1, r)
  {
    hide Beaten, Dominant, Apart;
    Earlier(ts, k, r);
    BeatenBy(ts, ts[k], r[|r| - 1]);
    StaysDominant(ts[..k], r, ts[k]);
  }

  lemma BeatenBy(ts: seq<Track>, t: Track, u: Track)
    requires u in ts && u != t && Overlap(t, u) && |u.word| >= |t.word|
    ensures Beaten(ts, t)
  {
  }

  lemma SiftReplaces(ts: seq<Track>, k: nat, r: seq<Track>)
    requires Ascending(ts) && k < |ts| && Sifted(ts, k, r) && r != []
    requires var last := r[|r| - 1]; ts[k].pos < End(last) && |ts[k].word| > |last.word|
    ensures Sifted(ts, k + 1, r[|r| - 1 := ts[k]])
  {
    hide Beaten, Dominant, Apart, RestBeaten;
    Earlier(ts, k, r);
    var last, front := r[|r| - 1], r[..|r| - 1];
    assert r[|r| - 1 := ts[k]] == front + [ts[k]] && r == front + [last];
    FrontKeeps(ts[..k], r);
    assert last in r && forall x <- front :: x in r;
    BeatenBy(ts, last, ts[k]);
    BecomesLast(ts[..k], front, ts[k]);
    LastBeaten(ts, k, front, last);
  }

  lemma FrontKeeps(ts: seq<Track>, r: seq<Track>)
    requires r != [] && Apart(r) && Dominant(ts, r)
    ensures var front := r[..|r| - 1];
            Apart(front) && Dominant(ts, front) && forall i | 0 <= i < |front| :: End(front[i]) <= r[|r| - 1].pos
  {
  }

  lemma LastBeaten(ts: seq<Track>, k: nat, front: seq<Track>, last: Track)
    requires k < |ts| && RestBeaten(ts, k, front + [last]) && Beaten(ts, last)
    ensures RestBeaten(ts, k + 1, front + [ts[k]])
  {
    hide Beaten;
  }

  /** Of overlapping keywords the longer wins, even when it starts later. */
  method SuppressOverlaps(ts: seq<Track>) returns (r: seq<Track>)
    requires Ascending(ts) && ts != []
    ensures Sifted(ts, |ts|, r)
    ensures r != [] && forall t <- r :: t in ts
    ensures (forall k | 1 <= k < |ts| :: ts[k].pos < End(ts[0]) ==> |ts[k].word| <= |ts[0].word|) ==> r[0] == ts[0]
    ensures forall k | Displaces(ts, k) :: ts[0] !in r
  {
    hide Sifted;
    var currentEnd, currentLen := -1, -1;
    r := [];
    assert Sifted(ts, 0, r) by { NothingSifted(ts); }
    ghost var displaced := false;
    for k := 0 to |ts|
      invariant (r == [] <==> k == 0) && forall t <- r :: t in ts
      invariant Sifted(ts, k, r)
      invariant k > 0 ==> currentLen == |r[|r| - 1].word| && currentEnd == End(r[|r| - 1])
      invariant k == 0 ==> currentEnd == -1
      invariant (forall j | 1 <= j < k :: ts[j].pos < End(ts[0]) ==> |ts[j].word| <= |ts[0].word|) && k > 0 ==>
                r[0] == ts[0]
      invariant Shadowed(ts, k) && k > 0 ==> r == [ts[0]]
      invariant displaced ==> k > 0 && ts[0] !in r
      invariant (exists j | 0 <= j < k :: Displaces(ts, j)) ==> displaced
    {
      var t := ts[k];
      ghost var r0 := r;
      assert k > 0 ==> ts[0].pos < ts[k].pos;
      if t.pos < currentEnd {
        if |t.word| > currentLen {
          SiftReplaces(ts, k, r);
          r := r[|r| - 1 := t];
          currentLen := |t.word|;
          currentEnd := t.pos + currentLen;
        } else {
          SiftDrops(ts, k, r);
        }
      } else {
        SiftAppends(ts, k, r);
        r := r + [t];
        currentLen := |t.word|;
        currentEnd := t.pos + currentLen;
      }
      assert forall x <- r :: x in r0 || x == t;
      if Displaces(ts, k) {
        assert r0 == [ts[0]] && r == [t];
        displaced := true;
      }
    }
  }

  lemma NothingSifted(ts: seq<Track>)
    ensures Sifted(ts, 0, [])
  {
  }

  // ---- what tracked and completed keywords stand for ----

  /** The keyword really occurs in the text, at or after position `from`. */
  ghost predicate Genuine(s: string, from: nat, t: Track)
  {
    IsKeyword(t.word) && from <= t.pos && End(t) <= |s| && s[t.pos..End(t)] == t.word
  }

  /** The line's text starts with LIST. */
  predicate ListText(s: string, start: nat) { start + 4 <= |s| && s[start..start + 4] == "LIST" }

  /** LLIST completed one character early: the priming call counted the L of LIST twice. */
  function Bogus(start: nat): Track { Track("LLIST", 4, start) }

  ghost predicate CompleteOk(s: string, start: nat, from: nat, t: Track)
  {
    Genuine(s, from, t) || (t == Bogus(start) && from == start && ListText(s, start))
  }

  /** A track is in step with the scan at i, or it is a primed one running a character ahead. */
  ghost predicate WordOk(s: string, start: nat, from: nat, i: nat, t: Track)
  {
    && IsKeyword(t.word) && Unfinished(t) && i <= |s|
    && (|| (from <= t.pos && t.pos + t.count + 1 == i && s[t.pos..i] == t.word[..t.count + 1])
        || (t.pos == start == from && start < |s| && start + t.count == i && t.word[0] == s[start]
            && s[start..i] == t.word[1..t.count + 1]))
  }

  lemma GrowKeeps(s: string, start: nat, from: nat, i: nat, u: Track)
    requires i < |s| && WordOk(s, start, from, i, u) && Continues(u, s[i])
    ensures Unfinished(Grown(u)) ==> WordOk(s, start, from, i + 1, Grown(u))
    ensures !Unfinished(Grown(u)) ==> CompleteOk(s, start, from, Grown(u))
  {
    hide Keyword, IsKeyword;
    var n := u.count + 2;
    if from <= u.pos && u.pos + u.count + 1 == i && s[u.pos..i] == u.word[..u.count + 1] {
      SliceGrows(s, u.pos, i);
      SliceGrows(u.word, 0, n - 1);
      assert n == |u.word| ==> u.word[..n] == u.word;
    } else {
      SliceGrows(s, start, i);
      SliceGrows(u.word, 1, n - 1);
      if n == |u.word| {
        PrimedIsLlist(s, start, i + 1, u.word);
      }
    }
  }

  lemma SliceGrows(s: string, a: nat, i: nat)
    requires a <= i < |s|
    ensures s[a..i + 1] == s[a..i] + [s[i]]
  {
  }

  /** The one keyword that can complete a character early. */
  lemma PrimedIsLlist(s: string, start: nat, end: nat, w: string)
    requires IsKeyword(w) && |w| > 1 && start < end <= |s| && w[0] == s[start] && s[start..end] == w[1..]
    ensures w == "LLIST" && end == start + 4 && ListText(s, start)
  {
    hide Keyword, IsKeyword;
    KeywordsOk(w);
    assert w[1] == w[1..][0] == s[start..end][0] == s[start];
    assert w[1..] == "LIST";
  }

  lemma PickKeeps(s: string, start: nat, from: nat, i: nat, t: Track)
    requires from <= i < |s| && Picked(t, s[i], i)
    ensures |t.word| > 1 ==> WordOk(s, start, from, i + 1, t)
    ensures |t.word| == 1 ==> CompleteOk(s, start, from, t)
  {
    hide Keyword;
    assert s[i..i + 1] == [s[i]] == t.word[..1];
  }

  // ---- one scan position ----

  ghost predicate TracksOk(s: string, start: nat, from: nat, i: nat, words: seq<Track>, complete: seq<Track>)
  {
    && (forall t <- words :: WordOk(s, start, from, i, t))
    && (forall t <- complete :: CompleteOk(s, start, from, t))
  }

  /** trackwords then pick_keywords on s[i]. */
  method Scan(s: string, ghost start: nat, ghost from: nat, i: nat, picking: bool, words: seq<Track>,
              complete: seq<Track>)
    returns (words': seq<Track>, complete': seq<Track>)
    requires start <= from <= i < |s| && TracksOk(s, start, from, i, words, complete)
    ensures TracksOk(s, start, from, i + 1, words', complete')
    ensures forall u <- words | Continues(u, s[i]) :: Grown(u) in (if Unfinished(Grown(u)) then words' else complete')
    ensures forall t <- complete :: t in complete'
    ensures picking ==> forall t | Picked(t, s[i], i) && |t.word| > 1 :: t in words'
  {
    hide CompleteOk, Picked;
    forall t <- words ensures Unfinished(t) { }
    var w, c := TrackWords(s[i], words, complete);
    hide WordOk, Continues;
    words', complete' := PickKeywords(s[i], i, picking, w, c);
    forall t <- words' ensures WordOk(s, start, from, i + 1, t) {
      if t in w {
        var u :| u in words && Continues(u, s[i]) && t == Grown(u) && Unfinished(t);
        GrowKeeps(s, start, from, i, u);
      } else {
        PickKeeps(s, start, from, i, t);
      }
    }
    forall t <- complete' ensures CompleteOk(s, start, from, t) {
      if t in complete {
      } else if t in c {
        var u :| u in words && Continues(u, s[i]) && t == Grown(u) && !Unfinished(t);
        GrowKeeps(s, start, from, i, u);
      } else {
        PickKeeps(s, start, from, i, t);
      }
    }
  }

  // ---- when the text starts with LIST ----

  /** A keyword of more than five letters follows LIST at once, as in LISTRETURN. */
  ghost predicate LongAfterList(s: string, start: nat)
  {
    exists k: nat | k < KEYWORDS :: LongAt(s, start + 4, Keyword(k))
  }

  ghost predicate LongAt(s: string, p: nat, w: string)
  {
    |w| > 5 && p + |w| <= |s| && s[p..p + |w|] == w
  }

  /** The condition under which the tokenizer gets a line wrong. */
  ghost predicate Misread(s: string, start: nat) { ListText(s, start) && !LongAfterList(s, start) }

  /** Genuine keywords that begin inside the first four letters of a LIST text are at most five long. */
  lemma ShortInsideList(s: string, start: nat, t: Track)
    requires ListText(s, start) && Genuine(s, start, t) && t.pos < start + 4
    ensures |t.word| <= 5 && (t.pos == start ==> |t.word| <= 4)
  {
    hide IsKeyword, Keyword;
    KeywordsOk(t.word);
    var d := t.pos - start;
    assert s[start..start + 4][d] == "LIST"[d];
    assert t.word[0] == s[t.pos];
    if |t.word| >= 2 {
      assert t.word[1] == s[t.pos + 1];
      if d < 3 {
        assert s[start..start + 4][d + 1] == "LIST"[d + 1];
      }
    }
  }

  /** Completed keywords before the first flush of a LIST text. */
  ghost predicate ListComplete(s: string, start: nat, complete: seq<Track>)
  {
    && ListText(s, start) && Bogus(start) in complete
    && (forall t <- complete :: CompleteOk(s, start, start, t))
  }

  lemma ThinnedAt(s: string, start: nat, complete: seq<Track>, ts: seq<Track>, k: int)
    requires ListComplete(s, start, complete) && Thinned(complete, ts) && 0 <= k < |ts|
    ensures start <= ts[k].pos && (ts[k] == Bogus(start) || Genuine(s, start, ts[k]))
    ensures k > 0 ==> ts[0].pos < ts[k].pos
  {
    hide Genuine, Represented, ListText;
    assert ts[k] in complete;
    if Genuine(s, start, ts[k]) {
      GenuinePos(s, start, ts[k]);
    }
  }

  lemma GenuinePos(s: string, from: nat, t: Track)
    requires Genuine(s, from, t)
    ensures from <= t.pos && End(t) <= |s|
  {
    hide IsKeyword;
  }

  lemma ThinnedHas(complete: seq<Track>, ts: seq<Track>, t: Track) returns (k: int)
    requires Thinned(complete, ts) && t in complete
    ensures 0 <= k < |ts| && ts[k].pos == t.pos && |ts[k].word| >= |t.word|
  {
    assert Represented(ts, t);
    k :| 0 <= k < |ts| && ts[k].pos == t.pos && |ts[k].word| >= |t.word|;
  }

  /** The bogus LLIST is the only candidate of its length at the start of the text. */
  lemma BogusFirst(s: string, start: nat, complete: seq<Track>, ts: seq<Track>)
    requires ListComplete(s, start, complete) && Thinned(complete, ts)
    ensures ts != [] && ts[0] == Bogus(start)
    ensures forall k | 1 <= k < |ts| :: start < ts[k].pos && Genuine(s, start, ts[k])
  {
    assert Bogus(start) in complete && ListText(s, start);
    hide Thinned, Genuine, ListComplete, ListText;
    var n := ThinnedHas(complete, ts, Bogus(start));
    ThinnedAt(s, start, complete, ts, n);
    ThinnedAt(s, start, complete, ts, 0);
    if ts[n] != Bogus(start) {
      ShortInsideList(s, start, ts[n]);
    }
    forall k | 1 <= k < |ts| ensures start < ts[k].pos && Genuine(s, start, ts[k]) {
      ThinnedAt(s, start, complete, ts, k);
    }
  }

  /** Misread: nothing displaces it. */
  lemma BogusStays(s: string, start: nat, complete: seq<Track>, ts: seq<Track>)
    requires Misread(s, start) && ListComplete(s, start, complete) && Thinned(complete, ts)
    ensures ts != [] && ts[0] == Bogus(start)
    ensures forall k | 1 <= k < |ts| :: ts[k].pos < End(ts[0]) ==> |ts[k].word| <= |ts[0].word|
  {
    hide Thinned, Genuine, ListComplete, ListText, Misread;
    BogusFirst(s, start, complete, ts);
    forall k | 1 <= k < |ts| && ts[k].pos < End(ts[0]) ensures |ts[k].word| <= 5 {
      AtMostFive(s, start, ts[k]);
    }
  }

  lemma AtMostFive(s: string, start: nat, t: Track)
    requires Misread(s, start) && Genuine(s, start, t) && t.pos < start + 5
    ensures |t.word| <= 5
  {
    hide Keyword, LongAfterList;
    if t.pos < start + 4 {
      ShortInsideList(s, start, t);
    } else {
      LongIsAfterList(s, start, t);
    }
  }

  lemma LongIsAfterList(s: string, start: nat, t: Track)
    requires Genuine(s, start, t) && t.pos == start + 4
    ensures |t.word| > 5 ==> LongAfterList(s, start)
  {
    hide Keyword;
    var j: nat :| j < KEYWORDS && Keyword(j) == t.word;
    assert |t.word| > 5 ==> LongAt(s, start + 4, Keyword(j));
  }

  /** A long keyword right behind LIST displaces it. */
  lemma BogusDisplaced(s: string, start: nat, w: Track, complete: seq<Track>, ts: seq<Track>) returns (k: int)
    requires ListComplete(s, start, complete) && Thinned(complete, ts)
    requires w in complete && |w.word| > 5 && w.pos == start + 4
    ensures ts != [] && ts[0] == Bogus(start) && Displaces(ts, k)
  {
    assert ListText(s, start);
    hide Genuine, ListComplete, ListText;
    BogusFirst(s, start, complete, ts);
    k := ThinnedHas(complete, ts, w);
    forall j | 1 <= j < k ensures ts[j].pos < End(ts[0]) && |ts[j].word| <= |ts[0].word| {
      assert ts[j].pos < ts[k].pos;
      ShortInsideList(s, start, ts[j]);
    }
  }

  // ---- flushing ----

  method Resolve(complete: seq<Track>, ghost s: string, ghost start: nat) returns (r: seq<Track>)
    requires complete != []
    ensures r != [] && forall t <- r :: t in complete
    ensures Misread(s, start) && ListComplete(s, start, complete) ==> r[0] == Bogus(start)
    ensures ListComplete(s, start, complete) ==>
              forall w <- complete :: |w.word| > 5 && w.pos == start + 4 ==> Bogus(start) !in r
  {
    var sorted := SortBy(complete, PosOf);
    SameMembers(complete, sorted);
    assert ListComplete(s, start, complete) ==> ListComplete(s, start, sorted);
    hide *;
    var ts := SuppressNonmax(sorted);
    assert Ascending(ts) && forall t <- ts :: t in sorted by { ThinnedMeans(sorted, ts); }
    r := SuppressOverlaps(ts);
    if ListComplete(s, start, sorted) {
      if Misread(s, start) {
        BogusStays(s, start, sorted, ts);
      }
      forall w <- complete | |w.word| > 5 && w.pos == start + 4 ensures Bogus(start) !in r {
        var k := BogusDisplaced(s, start, w, sorted, ts);
      }
    }
  }

  lemma ThinnedMeans(complete: seq<Track>, ts: seq<Track>)
    requires Thinned(complete, ts)
    ensures Ascending(ts) && forall t <- ts :: t in complete
  {
  }

  /** The tokens so far stand for exactly the text before `from`. */
  ghost predicate Lossless(s: string, start: nat, from: nat, tokens: seq<int>)
  {
    start <= from <= |s| && (AlphabetText(s) ==> Codes(tokens) && Decode(tokens) == s[start..from])
  }

  lemma CodesConcat(a: seq<int>, b: seq<int>)
    ensures Codes(a) && Codes(b) ==> Codes(a + b)
  {
  }

  lemma KeywordCode(k: nat)
    requires k < KEYWORDS
    ensures Codes([k + 0x80])
  {
  }

  lemma CharsAreCodes(s: string, from: nat, to: nat)
    requires from <= to <= |s|
    ensures AlphabetText(s) ==> Codes(EncodeChars(s[from..to]))
  {
    hide InAlphabet;
    if AlphabetText(s) {
      DecodeEncodeChars(s[from..to]);
    }
  }

  lemma AlphabetPart(s: string, from: nat, to: nat)
    requires AlphabetText(s) && from <= to <= |s|
    ensures AlphabetText(s[from..to])
  {
    hide InAlphabet;
  }

  lemma DecodeKeyword(k: nat)
    requires k < KEYWORDS
    ensures Decode([0x80 + k]) == Keyword(k)
  {
    hide Keyword;
    DecodeStep([0x80 + k]);
    DecodeStep([]);
    assert [0x80 + k][1..] == [];
  }

  lemma AppendChars(s: string, start: nat, from: nat, to: nat, tokens: seq<int>)
    requires Lossless(s, start, from, tokens) && from <= to <= |s|
    ensures Lossless(s, start, to, tokens + EncodeChars(s[from..to]))
  {
    hide EncodeChars, AlphabetText, Decode, Codes;
    if AlphabetText(s) {
      AlphabetPart(s, from, to);
      DecodeEncodeChars(s[from..to]);
      DecodeConcat(tokens, EncodeChars(s[from..to]));
      CodesConcat(tokens, EncodeChars(s[from..to]));
      assert s[start..to] == s[start..from] + s[from..to];
    }
  }

  lemma AppendKeyword(s: string, start: nat, from: nat, t: Track, k: nat, tokens: seq<int>)
    requires Lossless(s, start, from, tokens) && t.pos == from && Genuine(s, start, t)
    requires k < KEYWORDS && Keyword(k) == t.word
    ensures Lossless(s, start, End(t), tokens + [0x80 + k])
  {
    hide Keyword, AlphabetText, Decode, Codes, IsKeyword;
    if AlphabetText(s) {
      DecodeConcat(tokens, [0x80 + k]);
      DecodeKeyword(k);
      KeywordCode(k);
      CodesConcat(tokens, [0x80 + k]);
      assert s[start..End(t)] == s[start..from] + s[from..End(t)];
    }
  }

  /** Flush the characters before the first keyword, then keywords as long as they abut. */
  lemma CompleteBounds(s: string, start: nat, from: nat, t: Track)
    requires CompleteOk(s, start, from, t) && start <= from
    ensures IsKeyword(t.word) && from <= t.pos <= |s| && 0 < |t.word| && End(t) <= |s| + 1
    ensures t == Bogus(start) ==> from == start && t.pos == from
  {
    hide Keyword, IsKeyword;
    NamedKeywords();
    if Genuine(s, from, t) {
      KeywordsOk(t.word);
    }
  }

  lemma GenuineBefore(s: string, start: nat, from: nat, t: Track)
    requires Genuine(s, from, t) && start <= from
    ensures Genuine(s, start, t)
  {
    hide IsKeyword;
  }

  method Emit(s: string, ghost start: nat, from: nat, tokens: seq<int>, r: seq<Track>)
    returns (tokens': seq<int>, from': nat, verbatim: bool)
    requires r != [] && (forall t <- r :: CompleteOk(s, start, from, t)) && start <= from
    ensures from < from' <= |s| + 1 && tokens <= tokens' && |tokens'| - |tokens| <= from' - from
    ensures AlphabetText(s) && Codes(tokens) ==> Codes(tokens')
    ensures (forall t <- r :: Genuine(s, from, t)) && Lossless(s, start, from, tokens) ==>
            Lossless(s, start, from', tokens')
    ensures r[0] == Bogus(start) && tokens == [] ==> tokens' != [] && tokens'[0] == 0x80 + 91
  {
    hide Keyword, Lossless, IsKeyword, EncodeChars, Codes, AlphabetText, CompleteOk, Genuine;
    verbatim := false;
    ghost var good := (forall t <- r :: Genuine(s, from, t)) && Lossless(s, start, from, tokens);
    CompleteBounds(s, start, from, r[0]);
    tokens', from' := tokens + EncodeChars(s[from..r[0].pos]), r[0].pos;
    if good {
      AppendChars(s, start, from, r[0].pos, tokens);
    }
    CharsAreCodes(s, from, r[0].pos);
    CodesConcat(tokens, EncodeChars(s[from..r[0].pos]));
    for j := 0 to |r|
      invariant AlphabetText(s) && Codes(tokens) ==> Codes(tokens')
      invariant j == 0 ==> from' == r[0].pos && tokens' == tokens + EncodeChars(s[from..r[0].pos])
      invariant j > 0 ==> from < from' <= |s| + 1
      invariant |tokens'| - |tokens| <= from' - from
      invariant tokens <= tokens' && (good ==> Lossless(s, start, from', tokens'))
      invariant j > 0 && r[0] == Bogus(start) && tokens == [] ==> tokens' != [] && tokens'[0] == 0x80 + 91
    {
      var b := r[j];
      CompleteBounds(s, start, from, b);
      if j > 0 && b.pos != from' {
        break;
      }
      var k := KeywordIndex(b.word);
      if good {
        GenuineBefore(s, start, from, b);
        AppendKeyword(s, start, from', b, k, tokens');
      }
      if b == Bogus(start) {
        OnlyLlist(k);
      }
      KeywordCode(k);
      CodesConcat(tokens', [k + 0x80]);
      tokens' := tokens' + [k + 0x80];
      from' := b.pos + |b.word|;
      if b.word == "DATA" || b.word == "REM" {
        verbatim := true;
        break;
      }
    }
  }

  // ---- the scan ----

  /** Before the first flush of a LIST text the primed LLIST is on its way, or done; the mode is still
      plain up to the fifth character; and a long keyword w behind LIST is on its way, or done. */
  ghost predicate ListScan(s: string, start: nat, i: nat, plain: bool, words: seq<Track>, complete: seq<Track>)
  {
    && (i <= start + 4 ==> plain)
    && (start <= i < start + 4 ==> Track("LLIST", i - start, start) in words)
    && (i >= start + 4 ==> Bogus(start) in complete)
  }

  ghost predicate LongScan(w: string, start: nat, i: nat, words: seq<Track>, complete: seq<Track>)
  {
    && w != []
    && (start + 4 < i < start + 4 + |w| ==> Track(w, i - start - 5, start + 4) in words)
    && (start + 4 + |w| <= i ==> Track(w, |w| - 1, start + 4) in complete)
  }

  /** A long keyword behind LIST, or the empty string when there is none. */
  ghost function LongWord(s: string, start: nat): (w: string)
    ensures LongAfterList(s, start) ==> IsKeyword(w) && LongAt(s, start + 4, w)
  {
    hide Keyword;
    if LongAfterList(s, start) then
      var k: nat :| k < KEYWORDS && LongAt(s, start + 4, Keyword(k));
      Keyword(k)
    else ""
  }

  lemma ListLetter(s: string, start: nat, i: nat)
    requires ListText(s, start) && start <= i < start + 4
    ensures s[i] == "LIST"[i - start] && s[i] != '"'
  {
    assert s[start..start + 4][i - start] == "LIST"[i - start];
  }

  /** Scanning one more character of a LIST text keeps both on their way. */
  lemma ListScanStep(s: string, start: nat, i: nat, plain: bool, plain': bool, words: seq<Track>, complete: seq<Track>,
                     words': seq<Track>, complete': seq<Track>)
    requires ListText(s, start) && start <= i < |s| && ListScan(s, start, i, plain, words, complete)
    requires forall u <- words | Continues(u, s[i]) :: Grown(u) in (if Unfinished(Grown(u)) then words' else complete')
    requires forall t <- complete :: t in complete'
    requires plain && s[i] != '"' ==> plain'
    ensures ListScan(s, start, i + 1, plain', words', complete')
  {
    hide ListText;
    if i < start + 4 {
      ListLetter(s, start, i);
      var u := Track("LLIST", i - start, start);
      assert u in words && Continues(u, s[i]);
    }
  }

  lemma LongScanStep(s: string, start: nat, i: nat, plain: bool, words: seq<Track>, complete: seq<Track>,
                     words': seq<Track>, complete': seq<Track>)
    requires LongAfterList(s, start) && start <= i < |s|
    requires LongScan(LongWord(s, start), start, i, words, complete)
    requires i == start + 4 ==> plain
    requires forall u <- words | Continues(u, s[i]) :: Grown(u) in (if Unfinished(Grown(u)) then words' else complete')
    requires forall t <- complete :: t in complete'
    requires plain && s[i] != '"' ==> forall t | Picked(t, s[i], i) && |t.word| > 1 :: t in words'
    ensures LongScan(LongWord(s, start), start, i + 1, words', complete')
  {
    hide Keyword, LongAfterList, LongWord;
    var w := LongWord(s, start);
    var p := start + 4;
    if i == p {
      assert s[p..p + |w|][0] == w[0];
      KeywordsOk(w);
      assert Picked(Track(w, 0, p), s[p], p);
    } else if p < i < p + |w| {
      var u := Track(w, i - start - 5, p);
      assert s[p..p + |w|][i - p] == w[i - p];
      assert u in words && Continues(u, s[i]);
    }
  }

  /** The first flush of a LIST text comes once the bogus LLIST, and any long keyword behind it, are complete. */
  lemma FirstFlush(s: string, start: nat, i: nat, plain: bool, words: seq<Track>, complete: seq<Track>)
    requires ListText(s, start) && start < i <= |s| && ListScan(s, start, i, plain, words, complete)
    requires words == [] || i == |s|
    requires i == start + 4 ==> words != []
    requires LongAfterList(s, start) ==> LongScan(LongWord(s, start), start, i, words, complete)
    ensures Bogus(start) in complete
    ensures LongAfterList(s, start) ==>
              exists w <- complete :: |w.word| > 5 && w.pos == start + 4
  {
    hide Keyword, LongAfterList, LongWord;
    if LongAfterList(s, start) {
      var w := LongWord(s, start);
      assert i < start + 4 + |w| ==> i < |s|;
      assert Track(w, |w| - 1, start + 4) in complete;
    }
  }

  /** The T of LIST starts new candidates, so the scan cannot flush on it. */
  lemma LetterTPicks(s: string, start: nat, words: seq<Track>)
    requires ListText(s, start) && forall t | Picked(t, s[start + 3], start + 3) && |t.word| > 1 :: t in words
    ensures words != []
  {
    hide Keyword;
    ListLetter(s, start, start + 3);
    NamedKeywords();
    assert Picked(Track("TO", 0, start + 3), s[start + 3], start + 3);
  }

  /** Everything the scan knows about the text before `from`. */
  ghost predicate Progress(s: string, start: nat, from: nat, tokens: seq<int>, bad: bool)
  {
    && start <= from <= |s| + 1
    && (from == start ==> tokens == [] && !bad)
    && (AlphabetText(s) ==> Codes(tokens))
    && (!bad ==> Lossless(s, start, from, tokens))
    && (bad ==> tokens != [] && tokens[0] == 0x80 + 91)
    && (from > start && ListText(s, start) ==> (bad <==> Misread(s, start)))
    && (bad ==> ListText(s, start))
  }

  ghost predicate ListPending(s: string, start: nat, from: nat, i: nat, plain: bool, words: seq<Track>,
                              complete: seq<Track>)
  {
    from == start && ListText(s, start) ==>
      && ListScan(s, start, i, plain, words, complete)
      && (LongAfterList(s, start) ==> LongScan(LongWord(s, start), start, i, words, complete))
  }

  /** Resolve and emit the completed keywords. */
  method Flush(s: string, ghost start: nat, from: nat, ghost i: nat, tokens: seq<int>, complete: seq<Track>,
               ghost words: seq<Track>, ghost plain: bool, ghost bad: bool)
    returns (tokens': seq<int>, from': nat, verbatim: bool, ghost bad': bool)
    requires complete != [] && start <= from && start < i <= |s| && (words == [] || i == |s|)
    requires forall t <- complete :: CompleteOk(s, start, from, t)
    requires Progress(s, start, from, tokens, bad) && ListPending(s, start, from, i, plain, words, complete)
    requires from == start && ListText(s, start) && i == start + 4 ==> words != []
    ensures from < from' <= |s| + 1 && Progress(s, start, from', tokens', bad')
    ensures |tokens'| - |tokens| <= from' - from
  {
    hide Keyword, IsKeyword, LongAfterList, LongWord, Lossless, ListScan, LongScan, AlphabetText, Codes, Genuine;
    var r := Resolve(complete, s, start);
    tokens', from', verbatim := Emit(s, start, from, tokens, r);
    bad' := bad || (from == start && Misread(s, start));
    if from == start && ListText(s, start) {
      FirstFlush(s, start, i, plain, words, complete);
      assert ListComplete(s, start, complete);
    }
    if !bad' {
      assert forall t <- r :: Genuine(s, from, t);
    }
  }

  lemma FinishGood(s: string, start: nat, from: nat, tokens: seq<int>)
    requires Lossless(s, start, from, tokens) && AlphabetText(s)
    ensures Decode(tokens + EncodeChars(Slice(s, from))) == s[start..]
  {
    AppendChars(s, start, from, |s|, tokens);
    assert s[from..|s|] == s[from..] && s[start..|s|] == s[start..];
  }

  lemma FinishBad(tokens: seq<int>)
    requires tokens != [] && tokens[0] == 0x80 + 91
    ensures "LLIST" <= Decode(tokens)
  {
    NamedKeywords();
    assert DecodeCode(tokens[0]) == "LLIST";
  }

  lemma Primed(s: string, start: nat, words: seq<Track>, complete: seq<Track>)
    requires start < |s|
    requires forall t :: t in words <==> Picked(t, s[start], start) && |t.word| > 1
    requires forall t :: t in complete <==> Picked(t, s[start], start) && |t.word| == 1
    ensures TracksOk(s, start, start, start, words, complete)
    ensures ListPending(s, start, start, start, true, words, complete)
    ensures Progress(s, start, start, [], false)
  {
    hide Keyword, LongAfterList, LongWord;
    forall t <- words ensures WordOk(s, start, start, start, t) {
      assert s[start..start] == t.word[1..1];
    }
    forall t <- complete ensures CompleteOk(s, start, start, t) {
      PickKeeps(s, start, start, start, t);
    }
    if ListText(s, start) {
      ListLetter(s, start, start);
      NamedKeywords();
      assert Picked(Track("LLIST", 0, start), s[start], start);
    }
  }

  lemma ScanKeeps(s: string, start: nat, from: nat, i: nat, plain: bool, plain': bool, words: seq<Track>,
                  complete: seq<Track>,
                  words': seq<Track>, complete': seq<Track>)
    requires start <= i < |s| && ListPending(s, start, from, i, plain, words, complete)
    requires forall u <- words | Continues(u, s[i]) :: Grown(u) in (if Unfinished(Grown(u)) then words' else complete')
    requires forall t <- complete :: t in complete'
    requires plain' ==> forall t | Picked(t, s[i], i) && |t.word| > 1 :: t in words'
    requires plain && s[i] != '"' ==> plain'
    ensures ListPending(s, start, from, i + 1, plain', words', complete')
    ensures from == start && ListText(s, start) && i == start + 3 ==> words' != []
  {
    hide Keyword, LongAfterList, LongWord, Picked, Continues, LongScan;
    if from == start && ListText(s, start) {
      ListScanStep(s, start, i, plain, plain', words, complete, words', complete');
      if LongAfterList(s, start) {
        LongScanStep(s, start, i, plain, words, complete, words', complete');
      }
      if i == start + 3 {
        ListLetter(s, start, i);
        LetterTPicks(s, start, words');
      }
    }
  }

  lemma TracksComplete(s: string, start: nat, from: nat, i: nat, words: seq<Track>, complete: seq<Track>)
    requires TracksOk(s, start, from, i, words, complete)
    ensures forall t <- complete :: CompleteOk(s, start, from, t)
  {
    hide CompleteOk, WordOk;
  }

  /** A LIST text never meets the flush condition with nothing complete. */
  lemma NoEmptyFlush(s: string, start: nat, from: nat, i: nat, plain: bool, words: seq<Track>)
    requires start < i <= |s| && (words == [] || i == |s|) && ListPending(s, start, from, i, plain, words, [])
    requires from == start && ListText(s, start) && i == start + 4 ==> words != []
    ensures !(from == start && ListText(s, start))
  {
    hide LongAfterList, LongWord, LongScan, ListScan;
    if from == start && ListText(s, start) {
      FirstFlush(s, start, i, plain, words, []);
    }
  }

  /** Nothing tracked, and the first flush behind us or no LIST. */
  lemma FreshStart(s: string, start: nat, from: nat, i: nat, plain: bool)
    requires from > start || !ListText(s, start)
    ensures TracksOk(s, start, from, i, [], []) && ListPending(s, start, from, i, plain, [], [])
  {
  }

  lemma FinishAll(s: string, start: nat, from: nat, tokens: seq<int>, bad: bool)
    requires start < |s| && Progress(s, start, from, tokens, bad) && (ListText(s, start) ==> from > start)
    ensures var all := tokens + EncodeChars(Slice(s, from));
            && (AlphabetText(s) ==> Codes(all))
            && (AlphabetText(s) && !Misread(s, start) ==> Decode(all) == s[start..])
            && (Misread(s, start) ==> "LLIST" <= Decode(all) && Decode(all) != s[start..])
  {
    hide Lossless, Keyword, EncodeChars, LongAfterList, Codes, AlphabetText, Decode;
    var rest := EncodeChars(Slice(s, from));
    if from <= |s| {
      assert s[from..|s|] == s[from..];
      CharsAreCodes(s, from, |s|);
    } else {
      EmptyChars();
    }
    CodesConcat(tokens, rest);
    if bad {
      FinishBad(tokens + rest);
      ListLetter(s, start, start + 1);
    } else if AlphabetText(s) {
      FinishGood(s, start, from, tokens);
    }
  }

  lemma EmptyChars()
    ensures EncodeChars([]) == [] && Codes([])
  {
  }

  /** tokenize2 from the first text character on, without the record header and the final zero.
      Every line decodes to its own text, except a misread LIST, which never does. */
  method Tokenize(s: string, start: nat) returns (tokens: seq<int>)
    requires start < |s|
    ensures AlphabetText(s) ==> Codes(tokens)
    ensures AlphabetText(s) && !Misread(s, start) ==> Decode(tokens) == s[start..]
    ensures Misread(s, start) ==> "LLIST" <= Decode(tokens) && Decode(tokens) != s[start..]
    ensures |tokens| <= |s| + 1 - start
  {
    hide Keyword, IsKeyword, LongWord, Lossless, Genuine, Misread, TracksOk, ListPending, Progress;
    tokens := [];
    var i, from := start, start;
    var words, complete := PickKeywords(s[i], i, true, [], []);
    ghost var bad := false;
    assert TracksOk(s, start, from, i, words, complete) && ListPending(s, start, from, i, true, words, complete)
      && Progress(s, start, from, tokens, bad) by {
      Primed(s, start, words, complete);
    }
    var verbatim, quote := false, false;
    while i < |s|
      invariant start <= from <= i && from <= |s| + 1 && |tokens| <= from - start
      invariant i < |s| ==> TracksOk(s, start, from, i, words, complete)
      invariant i < |s| ==> ListPending(s, start, from, i, !verbatim && !quote, words, complete)
      invariant i >= |s| && ListText(s, start) ==> from > start
      invariant Progress(s, start, from, tokens, bad)
      decreases |s| + 1 - from, |s| - i
    {
      var breakchar := s[i];
      ghost var plain := !verbatim && !quote;
      ghost var words0, complete0 := words, complete;
      if breakchar == '"' {
        quote := !quote;
      }
      words, complete := Scan(s, start, from, i, !verbatim && !quote, words, complete);
      ScanKeeps(s, start, from, i, plain, !verbatim && !quote, words0, complete0, words, complete);
      assert forall t <- complete :: CompleteOk(s, start, from, t) by {
        TracksComplete(s, start, from, i + 1, words, complete);
      }
      if words == [] || i + 1 == |s| {
        if complete != [] {
          var v;
          tokens, from, v, bad := Flush(s, start, from, i + 1, tokens, complete, words, !verbatim && !quote, bad);
          i := from;
          if v {
            verbatim, quote := true, false;
          }
          if breakchar != '"' {
            i := i - 1;
          }
          complete := [];
        } else {
          NoEmptyFlush(s, start, from, i + 1, !verbatim && !quote, words);
        }
        words := [];
        FreshStart(s, start, from, i + 1, !verbatim && !quote);
      }
      i := i + 1;
    }
    var rest := EncodeChars(Slice(s, from));
    FinishAll(s, start, from, tokens, bad);
    tokens := tokens + rest;
  }
}
