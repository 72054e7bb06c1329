/** The exact windowed MaxScore search. */
module InvertedIndex {
  import opened SparseDot
  import opened SparseVectors
  import opened TopK
  import opened Ranker
  import opened BitWords
  import opened InvertedLists
  import Sorting

  const SCORE_WINDOW_SIZE: nat := 4096
  const BITMAP_WORDS: nat := 64
  const NO_MORE_DOCS: int := 0x7FFF_FFFF
  /** The largest document id whose window still ends within a 32-bit int. */
  const MAX_DOC: int := 2147479551

  // ---------------------------------------------------------------- term scores

  /** One query term joined with its posting list. */
  datatype TermData = TermData(list: seq<Posting>, queryWeight: real, maxScore: real)

  ghost predicate ValidTerm(t: TermData) {
    && StrictlyAscending(t.list)
    && t.maxScore >= 0.0
    && (forall p :: 0 <= p < |t.list| ==> t.queryWeight * t.list[p].value <= t.maxScore)
    && (forall p :: 0 <= p < |t.list| ==> t.list[p].doc <= MAX_DOC)
  }

  ghost predicate ValidTerms(terms: seq<TermData>) {
    forall i :: 0 <= i < |terms| ==> ValidTerm(terms[i])
  }

  function TermScore(t: TermData, d: nat): real {
    ListScore(t.list, |t.list|, t.queryWeight, d)
  }

  /** What terms lo..hi contribute to document d. */
  function SumRange(terms: seq<TermData>, lo: nat, hi: nat, d: nat): real
    requires lo <= hi <= |terms|
    decreases hi
  {
    if lo == hi then 0.0 else SumRange(terms, lo, hi - 1, d) + TermScore(terms[hi - 1], d)
  }

  function FullScore(terms: seq<TermData>, d: nat): real {
    SumRange(terms, 0, |terms|, d)
  }

  /** The most the first j terms together can contribute. */
  function PrefixMax(terms: seq<TermData>, j: nat): real
    requires j <= |terms|
  {
    if j == 0 then 0.0 else PrefixMax(terms, j - 1) + terms[j - 1].maxScore
  }

  /** At most one posting of a term belongs to d, so its score is bounded by the term's maximum. */
  lemma TermScoreBound(t: TermData, d: nat)
    requires ValidTerm(t)
    ensures TermScore(t, d) <= t.maxScore
  {
    if p :| 0 <= p < |t.list| && t.list[p].doc == d {
      TermScoreAt(t, p);
    } else {
      ListScoreAbsent(t.list, |t.list|, t.queryWeight, d);
    }
  }

  lemma TermScoreAt(t: TermData, p: nat)
    requires ValidTerm(t) && p < |t.list|
    ensures TermScore(t, t.list[p].doc) == t.queryWeight * t.list[p].value
  {
    var d := t.list[p].doc;
    ListScoreAbsent(t.list, p, t.queryWeight, d);
    ListScoreSettled(t.list, p + 1, |t.list|, t.queryWeight, d);
  }

  lemma {:induction false} PrefixBound(terms: seq<TermData>, j: nat, d: nat)
    requires ValidTerms(terms) && j <= |terms|
    ensures SumRange(terms, 0, j, d) <= PrefixMax(terms, j)
  {
    if j > 0 {
      PrefixBound(terms, j - 1, d);
      TermScoreBound(terms[j - 1], d);
    }
  }

  lemma {:induction false} PrefixNonNegative(terms: seq<TermData>, j: nat)
    requires ValidTerms(terms) && j <= |terms|
    ensures PrefixMax(terms, j) >= 0.0
  {
    if j > 0 {
      PrefixNonNegative(terms, j - 1);
    }
  }

  lemma {:induction false} SumSplit(terms: seq<TermData>, lo: nat, mid: nat, hi: nat, d: nat)
    requires lo <= mid <= hi <= |terms|
    ensures SumRange(terms, lo, hi, d) == SumRange(terms, lo, mid, d) + SumRange(terms, mid, hi, d)
    decreases hi
  {
    if mid < hi {
      SumSplit(terms, lo, mid, hi - 1, d);
    }
  }

  lemma {:induction false} SumOfPrefix(a: seq<TermData>, b: seq<TermData>, hi: nat, d: nat)
    requires hi <= |a|
    ensures SumRange(a + b, 0, hi, d) == SumRange(a, 0, hi, d)
    decreases hi
  {
    if hi > 0 {
      SumOfPrefix(a, b, hi - 1, d);
    }
  }

  lemma {:induction false} SumAppend(a: seq<TermData>, b: seq<TermData>, d: nat)
    ensures FullScore(a + b, d) == FullScore(a, d) + FullScore(b, d)
    decreases |b|
  {
    if b == [] {
      assert a + b == a;
    } else {
      var init, last := b[..|b| - 1], b[|b| - 1];
      assert b == init + [last];
      assert a + b == (a + init) + [last];
      SumAppend(a, init, d);
      SumOfPrefix(a + init, [last], |a + init|, d);
      SumOfPrefix(init, [last], |init|, d);
    }
  }

  lemma FullScoreRemove(b: seq<TermData>, i: nat, d: nat)
    requires i < |b|
    ensures FullScore(b, d) == FullScore(b[..i] + b[i + 1..], d) + TermScore(b[i], d)
  {
    var before, after := b[..i], b[i + 1..];
    assert b == before + ([b[i]] + after);
    SumAppend(before, after, d);
    SumAppend(before, [b[i]] + after, d);
    SumAppend([b[i]], after, d);
    assert SumRange([b[i]], 0, 0, d) == 0.0;
  }

  /** The order the terms are sorted into does not change any document's score. */
  lemma {:induction false} SumPermutes(a: seq<TermData>, b: seq<TermData>, d: nat)
    requires multiset(a) == multiset(b)
    ensures FullScore(a, d) == FullScore(b, d)
    decreases |a|
  {
    if a == [] {
      assert |multiset(b)| == 0;
    } else {
      var i := Sorting.Rematch(a, b);
      SumPermutes(a[..|a| - 1], b[..i] + b[i + 1..], d);
      FullScoreRemove(a, |a| - 1, d);
      assert a[..|a| - 1] + a[|a|..] == a[..|a| - 1];
      FullScoreRemove(b, i, d);
    }
  }

  // ---------------------------------------------------------------- scorers

  /** A cursor over one term's postings. */
  class DirectTermScorer {
    const term: TermData
    /** -1 before the first posting, the list's length when exhausted. */
    var currentIndex: int

    constructor (term: TermData)
      ensures this.term == term && currentIndex == -1
    {
      this.term := term;
      currentIndex := -1;
    }

    function DocId(): int
      requires currentIndex <= |term.list|
      reads this
    {
      if currentIndex < 0 || currentIndex >= |term.list| then NO_MORE_DOCS
      else term.list[currentIndex].doc
    }

    method NextDoc() returns (doc: int)
      requires -1 <= currentIndex < |term.list| || (currentIndex == -1 && term.list == [])
      modifies this
      ensures currentIndex == old(currentIndex) + 1 && doc == DocId()
    {
      currentIndex := currentIndex + 1;
      if currentIndex >= |term.list| {
        return NO_MORE_DOCS;
      }
      return term.list[currentIndex].doc;
    }

    /** Moves to the first posting at or past the cursor whose document is at least the target. */
    method AdvanceTo(targetDoc: int) returns (doc: int)
      requires -1 <= currentIndex <= |term.list| && StrictlyAscending(term.list)
      modifies this
      ensures 0 <= currentIndex <= |term.list| && old(currentIndex) <= currentIndex && doc == DocId()
      ensures forall p :: 0 <= p < currentIndex && old(currentIndex) <= p ==> term.list[p].doc < targetDoc
      ensures forall p :: currentIndex <= p < |term.list| ==> targetDoc <= term.list[p].doc
    {
      if currentIndex >= |term.list| {
        return NO_MORE_DOCS;
      }
      if currentIndex >= 0 && term.list[currentIndex].doc >= targetDoc {
        return term.list[currentIndex].doc;
      }
      var start := if currentIndex < 0 then 0 else currentIndex + 1;
      var it := LowerBound(term.list, start, targetDoc);
      currentIndex := it;
      if it == |term.list| {
        return NO_MORE_DOCS;
      }
      return term.list[it].doc;
    }
  }

  /** std::lower_bound over the postings from `start` on. */
  method LowerBound(list: seq<Posting>, start: nat, target: int) returns (it: nat)
    requires start <= |list| && StrictlyAscending(list)
    ensures start <= it <= |list|
    ensures forall p :: start <= p < it ==> list[p].doc < target
    ensures forall p :: it <= p < |list| ==> target <= list[p].doc
  {
    var lo, hi := start, |list|;
    while lo < hi
      invariant start <= lo <= hi <= |list|
      invariant forall p :: start <= p < lo ==> list[p].doc < target
      invariant forall p :: hi <= p < |list| ==> target <= list[p].doc
    {
      var mid := (lo + hi) / 2;
      if list[mid].doc < target {
        lo := mid + 1;
      } else {
        hi := mid;
      }
    }
    return lo;
  }

  /** The scorers are distinct cursors, one per term, within their lists. */
  ghost predicate ScorersOver(scorers: seq<DirectTermScorer>, terms: seq<TermData>)
    reads scorers
  {
    && |scorers| == |terms|
    && (forall i, j :: 0 <= i < j < |scorers| ==> scorers[i] != scorers[j])
    && (forall i :: 0 <= i < |scorers| ==> scorers[i].term == terms[i])
    && (forall i :: 0 <= i < |scorers| ==> 0 <= scorers[i].currentIndex <= |terms[i].list|)
  }

  ghost function Cursors(scorers: seq<DirectTermScorer>): (at: seq<int>)
    reads scorers
  {
    seq(|scorers|, i requires 0 <= i < |scorers| reads scorers => scorers[i].currentIndex)
  }

  /** No cursor is before where it was. */
  ghost predicate NeverBack(before: seq<int>, after: seq<int>) {
    |before| == |after| && forall i :: 0 <= i < |before| ==> before[i] <= after[i]
  }

  lemma Onward(a: seq<int>, b: seq<int>, c: seq<int>)
    requires NeverBack(a, b) && NeverBack(b, c)
    ensures NeverBack(a, c)
  {
  }

  /** Some essential cursor has moved past a posting. */
  ghost predicate Consumed(before: seq<int>, after: seq<int>, firstEssential: nat) {
    |before| == |after| && exists i :: firstEssential <= i < |before| && before[i] < after[i]
  }

  lemma Unmoved(a: seq<int>)
    ensures NeverBack(a, a)
  {
  }

  /** Every posting the cursor has passed lies before document f. */
  ghost predicate Behind(s: DirectTermScorer, f: int)
    reads s
  {
    forall p :: 0 <= p < s.currentIndex && p < |s.term.list| ==> s.term.list[p].doc < f
  }

  /** Every posting still to come is at document f or later. */
  ghost predicate Ahead(s: DirectTermScorer, f: int)
    reads s
  {
    forall p :: 0 <= p < |s.term.list| && s.currentIndex <= p ==> f <= s.term.list[p].doc
  }

  // ---------------------------------------------------------------- the scoring window

  predicate Touched(bitmap: seq<Word>, slot: nat)
    requires |bitmap| == BITMAP_WORDS && slot < SCORE_WINDOW_SIZE
  {
    bitmap[slot / 64][slot % 64]
  }

  /** Adds an amount into a slot and marks it in the bitmap. */
  method AddToSlot(windowScores: array<real>, bitmap: array<Word>, slot: nat, amount: real)
    requires windowScores.Length == SCORE_WINDOW_SIZE && bitmap.Length == BITMAP_WORDS
    requires slot < SCORE_WINDOW_SIZE
    modifies windowScores, bitmap
    ensures windowScores[..] == old(windowScores[..])[slot := old(windowScores[slot]) + amount]
    ensures forall s :: 0 <= s < SCORE_WINDOW_SIZE ==>
              (Touched(bitmap[..], s) <==> old(Touched(bitmap[..], s)) || s == slot)
  {
    bitmap[slot / 64] := Or(bitmap[slot / 64], Mask(slot % 64));
    windowScores[slot] := windowScores[slot] + amount;
  }

  lemma NothingScoredBehind(t: TermData, n: nat, f: int)
    requires n <= |t.list| && forall p :: 0 <= p < n ==> t.list[p].doc < f
    ensures forall d: nat :: f <= d ==> ListScore(t.list, n, t.queryWeight, d) == 0.0
  {
    forall d: nat | f <= d
      ensures ListScore(t.list, n, t.queryWeight, d) == 0.0
    {
      ListScoreAbsent(t.list, n, t.queryWeight, d);
    }
  }

  lemma AllScoredBefore(t: TermData, n: nat, f: int)
    requires n <= |t.list| && forall p :: n <= p < |t.list| ==> f <= t.list[p].doc
    ensures forall d: nat :: d < f ==> ListScore(t.list, n, t.queryWeight, d) == TermScore(t, d)
  {
    forall d: nat | d < f
      ensures ListScore(t.list, n, t.queryWeight, d) == TermScore(t, d)
    {
      ListScoreSettled(t.list, n, |t.list|, t.queryWeight, d);
    }
  }

  /** The slots hold what was there before plus the first n postings of the term. */
  ghost predicate PartlyScored(scores: seq<real>, before: seq<real>, t: TermData, n: nat, windowBase: nat)
    requires n <= |t.list|
  {
    && |scores| == |before| == SCORE_WINDOW_SIZE
    && forall s :: 0 <= s < SCORE_WINDOW_SIZE ==>
         scores[s] == before[s] + ListScore(t.list, n, t.queryWeight, windowBase + s)
  }

  /** Marks only accumulate, and a slot without one has not changed. */
  ghost predicate MarkedSince(bits: seq<Word>, bitsBefore: seq<Word>, scores: seq<real>, before: seq<real>) {
    && |bits| == |bitsBefore| == BITMAP_WORDS && |scores| == |before| == SCORE_WINDOW_SIZE
    && forall s :: 0 <= s < SCORE_WINDOW_SIZE ==>
         (Touched(bitsBefore, s) ==> Touched(bits, s)) && (!Touched(bits, s) ==> scores[s] == before[s])
  }

  /** Adds the posting under the cursor into its slot. */
  method ScorePosting(scorer: DirectTermScorer, windowBase: nat, windowScores: array<real>, bitmap: array<Word>,
                      ghost before: seq<real>, ghost bitsBefore: seq<Word>)
    requires 0 <= scorer.currentIndex < |scorer.term.list|
    requires 0 <= scorer.term.list[scorer.currentIndex].doc - windowBase < SCORE_WINDOW_SIZE
    requires windowScores.Length == SCORE_WINDOW_SIZE && bitmap.Length == BITMAP_WORDS
    requires PartlyScored(windowScores[..], before, scorer.term, scorer.currentIndex, windowBase)
    requires MarkedSince(bitmap[..], bitsBefore, windowScores[..], before)
    modifies scorer, windowScores, bitmap
    ensures scorer.currentIndex == old(scorer.currentIndex) + 1
    ensures PartlyScored(windowScores[..], before, scorer.term, scorer.currentIndex, windowBase)
    ensures MarkedSince(bitmap[..], bitsBefore, windowScores[..], before)
  {
    var posting := scorer.term.list[scorer.currentIndex];
    AddToSlot(windowScores, bitmap, posting.doc - windowBase, scorer.term.queryWeight * posting.value);
    scorer.currentIndex := scorer.currentIndex + 1;
  }

  /** Adds one scorer's postings of the window into the slots, marking each slot it touches. */
  method ScoreTerm(scorer: DirectTermScorer, windowBase: nat, windowEnd: nat,
                   windowScores: array<real>, bitmap: array<Word>)
    requires ValidTerm(scorer.term) && 0 <= scorer.currentIndex <= |scorer.term.list|
    requires Behind(scorer, windowBase)
    requires windowEnd == windowBase + SCORE_WINDOW_SIZE
    requires windowScores.Length == SCORE_WINDOW_SIZE && bitmap.Length == BITMAP_WORDS
    modifies scorer, windowScores, bitmap
    ensures old(scorer.currentIndex) <= scorer.currentIndex <= |scorer.term.list|
    ensures Behind(scorer, windowEnd) && Ahead(scorer, windowEnd)
    ensures PartlyScored(windowScores[..], old(windowScores[..]), scorer.term, |scorer.term.list|, windowBase)
    ensures MarkedSince(bitmap[..], old(bitmap[..]), windowScores[..], old(windowScores[..]))
  {
    var t := scorer.term;
    ghost var before, bitsBefore := windowScores[..], bitmap[..];
    StartUnscored(before, t, scorer.currentIndex, windowBase);
    assert MarkedSince(bitsBefore, bitsBefore, before, before);
    hide PartlyScored, MarkedSince, ListScore;
    while scorer.currentIndex < |t.list|
      invariant old(scorer.currentIndex) <= scorer.currentIndex <= |t.list|
      invariant Behind(scorer, windowEnd)
      invariant PartlyScored(windowScores[..], before, t, scorer.currentIndex, windowBase)
      invariant MarkedSince(bitmap[..], bitsBefore, windowScores[..], before)
    {
      var doc := t.list[scorer.currentIndex].doc;
      if doc >= windowEnd {
        break;
      }
      if doc < windowBase {
        SkipBefore(windowScores[..], before, t, scorer.currentIndex, windowBase);
        scorer.currentIndex := scorer.currentIndex + 1;
        continue;
      }
      ScorePosting(scorer, windowBase, windowScores, bitmap, before, bitsBefore);
    }
    EndScored(windowScores[..], before, t, scorer.currentIndex, windowBase);
  }

  lemma StartUnscored(before: seq<real>, t: TermData, n: nat, windowBase: nat)
    requires |before| == SCORE_WINDOW_SIZE
    requires n <= |t.list| && forall p :: 0 <= p < n ==> t.list[p].doc < windowBase
    ensures PartlyScored(before, before, t, n, windowBase)
  {
    NothingScoredBehind(t, n, windowBase);
  }

  lemma SkipBefore(scores: seq<real>, before: seq<real>, t: TermData, n: nat, windowBase: nat)
    requires n < |t.list| && t.list[n].doc < windowBase && PartlyScored(scores, before, t, n, windowBase)
    ensures PartlyScored(scores, before, t, n + 1, windowBase)
  {
  }

  lemma EndScored(scores: seq<real>, before: seq<real>, t: TermData, n: nat, windowBase: nat)
    requires n <= |t.list| && PartlyScored(scores, before, t, n, windowBase)
    requires forall p :: n <= p < |t.list| ==> windowBase + SCORE_WINDOW_SIZE <= t.list[p].doc
    ensures PartlyScored(scores, before, t, |t.list|, windowBase)
  {
    AllScoredBefore(t, n, windowBase + SCORE_WINDOW_SIZE);
  }

  ghost predicate Clean(windowScores: array<real>)
    reads windowScores
  {
    && windowScores.Length == SCORE_WINDOW_SIZE
    && forall s :: 0 <= s < SCORE_WINDOW_SIZE ==> windowScores[s] == 0.0
  }

  /** Each slot holds what terms lo..hi contribute to its document. */
  ghost predicate HoldsSums(scores: seq<real>, terms: seq<TermData>, lo: nat, hi: nat, windowBase: nat)
    requires lo <= hi <= |terms|
  {
    && |scores| == SCORE_WINDOW_SIZE
    && forall s :: 0 <= s < SCORE_WINDOW_SIZE ==> scores[s] == SumRange(terms, lo, hi, windowBase + s)
  }

  ghost predicate ZeroUnlessMarked(bits: seq<Word>, scores: seq<real>) {
    && |bits| == BITMAP_WORDS && |scores| == SCORE_WINDOW_SIZE
    && forall s :: 0 <= s < SCORE_WINDOW_SIZE && !Touched(bits, s) ==> scores[s] == 0.0
  }

  lemma NothingScored(windowScores: array<real>, bits: seq<Word>, terms: seq<TermData>, lo: nat, windowBase: nat)
    requires Clean(windowScores) && lo <= |terms| && |bits| == BITMAP_WORDS
    ensures HoldsSums(windowScores[..], terms, lo, lo, windowBase) && ZeroUnlessMarked(bits, windowScores[..])
  {
    assert forall s :: 0 <= s < SCORE_WINDOW_SIZE ==> windowScores[..][s] == windowScores[s];
  }

  lemma SumsStep(scores: seq<real>, before: seq<real>, terms: seq<TermData>, lo: nat, hi: nat, windowBase: nat)
    requires lo <= hi < |terms| && HoldsSums(before, terms, lo, hi, windowBase)
    requires PartlyScored(scores, before, terms[hi], |terms[hi].list|, windowBase)
    ensures HoldsSums(scores, terms, lo, hi + 1, windowBase)
  {
  }

  lemma ZeroStep(bits: seq<Word>, bitsBefore: seq<Word>, scores: seq<real>, before: seq<real>)
    requires ZeroUnlessMarked(bitsBefore, before) && MarkedSince(bits, bitsBefore, scores, before)
    ensures ZeroUnlessMarked(bits, scores)
  {
  }

  /** Scores the essential terms into the window; a slot without a mark stays zero. */
  method ScoreEssentialTerms(scorers: seq<DirectTermScorer>, ghost terms: seq<TermData>, firstEssential: nat,
                             windowBase: nat, windowEnd: nat, windowScores: array<real>, bitmap: array<Word>)
    requires ValidTerms(terms) && ScorersOver(scorers, terms) && firstEssential <= |terms|
    requires windowEnd == windowBase + SCORE_WINDOW_SIZE
    requires forall i :: firstEssential <= i < |scorers| ==> Behind(scorers[i], windowBase)
    requires Clean(windowScores) && bitmap.Length == BITMAP_WORDS
    modifies scorers, windowScores, bitmap
    ensures ScorersOver(scorers, terms)
    ensures forall i :: 0 <= i < firstEssential ==> scorers[i].currentIndex == old(scorers[i].currentIndex)
    ensures forall i :: 0 <= i < |scorers| ==> old(scorers[i].currentIndex) <= scorers[i].currentIndex
    ensures forall i :: firstEssential <= i < |scorers| ==> Behind(scorers[i], windowEnd) && Ahead(scorers[i], windowEnd)
    ensures HoldsSums(windowScores[..], terms, firstEssential, |terms|, windowBase)
    ensures ZeroUnlessMarked(bitmap[..], windowScores[..])
    ensures NeverBack(old(Cursors(scorers)), Cursors(scorers))
  {
    hide HoldsSums, ZeroUnlessMarked, PartlyScored, MarkedSince, ValidTerm, Ahead;
    NothingScored(windowScores, bitmap[..], terms, firstEssential, windowBase);
    for i := firstEssential to |scorers|
      invariant ScorersOver(scorers, terms)
      invariant forall j :: 0 <= j < firstEssential || i <= j < |scorers| ==>
                  scorers[j].currentIndex == old(scorers[j].currentIndex)
      invariant forall j :: 0 <= j < |scorers| ==> old(scorers[j].currentIndex) <= scorers[j].currentIndex
      invariant forall j :: firstEssential <= j < i ==> Behind(scorers[j], windowEnd) && Ahead(scorers[j], windowEnd)
      invariant HoldsSums(windowScores[..], terms, firstEssential, i, windowBase)
      invariant ZeroUnlessMarked(bitmap[..], windowScores[..])
    {
      ghost var before, bitsBefore := windowScores[..], bitmap[..];
      ScoreTerm(scorers[i], windowBase, windowEnd, windowScores, bitmap);
      SumsStep(windowScores[..], before, terms, firstEssential, i, windowBase);
      ZeroStep(bitmap[..], bitsBefore, windowScores[..], before);
    }
  }

  // ---------------------------------------------------------------- settled documents

  /** The admitted documents before f that score above zero. */
  ghost function Settled(all: seq<real>, isMember: nat -> bool, f: int): set<nat> {
    set d: nat | 0 <= d < |all| && d < f && isMember(d) && all[d] > 0.0
  }

  /** A document that cannot enter the heap: not admitted, not above zero, or beaten by a full heap. */
  ghost predicate Negligible(pq: seq<Item>, k: nat, all: seq<real>, isMember: nat -> bool, d: nat) {
    d < |all| && isMember(d) && all[d] > 0.0 ==> 0 < |pq| == k && all[d] <= pq[0].score
  }

  /** Passing over negligible documents keeps the heap an exact answer. */
  lemma PassOver(pq: seq<Item>, k: nat, all: seq<real>, isMember: nat -> bool, f: int, g: int)
    requires Holds(pq, k, all, Settled(all, isMember, f)) && 0 <= f <= g
    requires forall d: nat :: f <= d < g ==> Negligible(pq, k, all, isMember, d)
    ensures Holds(pq, k, all, Settled(all, isMember, g))
  {
    forall d | d in Settled(all, isMember, g) && Item(all[d], d) !in pq
      ensures 0 < |pq| == k && all[d] <= pq[0].score
    {
      assert d < f || Negligible(pq, k, all, isMember, d);
      assert d < f ==> d in Settled(all, isMember, f);
    }
  }

  /** Offering an admitted positive document with its true score settles it. */
  lemma OfferNext(pq: seq<Item>, k: nat, all: seq<real>, isMember: nat -> bool, d: nat)
    requires k > 0 && Holds(pq, k, all, Settled(all, isMember, d))
    requires d < |all| && isMember(d) && all[d] > 0.0
    ensures Holds(Offer(pq, k, Item(all[d], d)), k, all, Settled(all, isMember, d + 1))
  {
    var settled := Settled(all, isMember, d);
    assert d !in settled && Settled(all, isMember, d + 1) == settled + {d};
    hide Settled, Offer;
    OfferSettles(pq, k, all, settled, d);
  }

  // ---------------------------------------------------------------- candidate evaluation

  lemma AdvancedScore(s: DirectTermScorer, doc: nat)
    requires ValidTerm(s.term) && 0 <= s.currentIndex <= |s.term.list| && doc <= MAX_DOC
    requires Behind(s, doc) && Ahead(s, doc)
    ensures s.DocId() == doc ==> s.currentIndex < |s.term.list|
    ensures s.DocId() == doc ==> TermScore(s.term, doc) == s.term.queryWeight * s.term.list[s.currentIndex].value
    ensures s.DocId() != doc ==> TermScore(s.term, doc) == 0.0
  {
    if s.currentIndex < |s.term.list| && s.term.list[s.currentIndex].doc == doc {
      TermScoreAt(s.term, s.currentIndex);
    } else {
      ListScoreAbsent(s.term.list, |s.term.list|, s.term.queryWeight, doc);
    }
  }

  lemma AbandonedScore(terms: seq<TermData>, j: nat, doc: nat, total: real, threshold: real)
    requires ValidTerms(terms) && j <= |terms| && total == SumRange(terms, j, |terms|, doc)
    requires total + PrefixMax(terms, j) <= threshold
    ensures FullScore(terms, doc) <= threshold && total <= threshold
  {
    SumSplit(terms, 0, j, |terms|, doc);
    PrefixBound(terms, j, doc);
    PrefixNonNegative(terms, j);
  }

  /** Moves one non-essential scorer to the document and reads what it contributes there. */
  method ScoreAt(scorer: DirectTermScorer, doc: nat) returns (amount: real)
    requires ValidTerm(scorer.term) && 0 <= scorer.currentIndex <= |scorer.term.list|
    requires Behind(scorer, doc) && doc <= MAX_DOC
    modifies scorer
    ensures old(scorer.currentIndex) <= scorer.currentIndex <= |scorer.term.list|
    ensures Behind(scorer, doc) && amount == TermScore(scorer.term, doc)
  {
    var _ := scorer.AdvanceTo(doc);
    AdvancedScore(scorer, doc);
    amount := 0.0;
    if scorer.DocId() == doc {
      amount := scorer.term.queryWeight * scorer.term.list[scorer.currentIndex].value;
    }
  }

  lemma SumStep(terms: seq<TermData>, j: nat, d: nat)
    requires j < |terms|
    ensures SumRange(terms, j, |terms|, d) == SumRange(terms, j + 1, |terms|, d) + TermScore(terms[j], d)
  {
    SumSplit(terms, j, j + 1, |terms|, d);
    assert SumRange(terms, j, j, d) == 0.0;
  }

  /**
   * Completes a candidate's score from the non-essential terms, or abandons it once the rest
   * cannot lift it over the threshold.
   */
  method AddNonEssential(scorers: seq<DirectTermScorer>, ghost terms: seq<TermData>, firstEssential: nat,
                         doc: nat, essentialScore: real, threshold: real, maxScorePrefix: seq<real>)
    returns (totalScore: real)
    requires ValidTerms(terms) && ScorersOver(scorers, terms) && firstEssential <= |terms| == |scorers| && doc <= MAX_DOC
    requires |maxScorePrefix| == |terms| + 1
    requires forall j :: 0 <= j <= |terms| ==> maxScorePrefix[j] == PrefixMax(terms, j)
    requires forall i :: 0 <= i < firstEssential ==> Behind(scorers[i], doc)
    requires essentialScore == SumRange(terms, firstEssential, |terms|, doc)
    modifies scorers[..firstEssential]
    ensures ScorersOver(scorers, terms)
    ensures forall i :: 0 <= i < firstEssential ==> Behind(scorers[i], doc)
    ensures totalScore == FullScore(terms, doc) ||
            (firstEssential > 0 && totalScore <= threshold && FullScore(terms, doc) <= threshold)
    ensures NeverBack(old(Cursors(scorers)), Cursors(scorers))
  {
    hide SumRange, PrefixMax, TermScore, StrictlyAscending;
    totalScore := essentialScore;
    var j := firstEssential;
    while j > 0
      invariant 0 <= j <= firstEssential
      invariant ScorersOver(scorers, terms)
      invariant forall i :: 0 <= i < firstEssential ==> Behind(scorers[i], doc)
      invariant totalScore == SumRange(terms, j, |terms|, doc)
      invariant NeverBack(old(Cursors(scorers)), Cursors(scorers))
    {
      j := j - 1;
      var amount := ScoreAt(scorers[j], doc);
      totalScore := totalScore + amount;
      SumStep(terms, j, doc);
      if totalScore + maxScorePrefix[j] <= threshold {
        AbandonedScore(terms, j, doc, totalScore, threshold);
        break;
      }
    }
  }

  /** The facts a search relies on that no step changes. */
  ghost predicate Context(terms: seq<TermData>, maxScorePrefix: seq<real>, all: seq<real>) {
    && ValidTerms(terms)
    && |maxScorePrefix| == |terms| + 1
    && (forall j :: 0 <= j <= |terms| ==> maxScorePrefix[j] == PrefixMax(terms, j))
    && |all| <= MAX_DOC + 1
    && (forall d :: 0 <= d < |all| ==> all[d] == FullScore(terms, d))
    && (forall i, p :: 0 <= i < |terms| && 0 <= p < |terms[i].list| ==> terms[i].list[p].doc < |all|)
  }

  lemma ContextTerms(terms: seq<TermData>, maxScorePrefix: seq<real>, all: seq<real>)
    requires Context(terms, maxScorePrefix, all)
    ensures ValidTerms(terms)
  {
  }

  /** Between candidates: everything before f is settled, and no non-essential cursor has passed f. */
  ghost predicate SearchState(scorers: seq<DirectTermScorer>, terms: seq<TermData>, firstEssential: nat,
                              maxScorePrefix: seq<real>, heap: TopKHolder, all: seq<real>,
                              isMember: nat -> bool, f: int)
    requires |maxScorePrefix| == |terms| + 1
    reads scorers, heap
  {
    && ScorersOver(scorers, terms)
    && heap.Valid()
    && firstEssential <= |terms|
    && 0 <= f
    && (forall i :: 0 <= i < firstEssential ==> Behind(scorers[i], f))
    && Holds(heap.pq, heap.k, all, Settled(all, isMember, f))
    && (firstEssential > 0 ==> heap.Full())
    && (forall j :: 1 <= j <= firstEssential ==> maxScorePrefix[j] < heap.PeekScore())
  }

  ghost function Threshold(heap: TopKHolder): real
    requires heap.Valid()
    reads heap
  {
    if heap.Full() then heap.PeekScore() else 0.0
  }

  /** What the essential part leaves is bounded by the non-essential terms' prefix. */
  lemma NonEssentialBound(terms: seq<TermData>, maxScorePrefix: seq<real>, all: seq<real>, firstEssential: nat, d: nat)
    requires Context(terms, maxScorePrefix, all) && firstEssential <= |terms| && d < |all|
    ensures all[d] <= SumRange(terms, firstEssential, |terms|, d) + maxScorePrefix[firstEssential]
  {
    SumSplit(terms, 0, firstEssential, |terms|, d);
    PrefixBound(terms, firstEssential, d);
  }

  /** A candidate whose bound does not exceed the threshold is settled by skipping it. */
  lemma SkipCandidate(terms: seq<TermData>, maxScorePrefix: seq<real>, all: seq<real>, firstEssential: nat,
                      pq: seq<Item>, k: nat, isMember: nat -> bool, doc: nat, threshold: real)
    requires Context(terms, maxScorePrefix, all) && firstEssential <= |terms|
    requires k > 0 && Holds(pq, k, all, Settled(all, isMember, doc))
    requires threshold == if |pq| == k then pq[0].score else 0.0
    requires firstEssential > 0 ==> |pq| == k
    requires !isMember(doc) ||
             SumRange(terms, firstEssential, |terms|, doc) + maxScorePrefix[firstEssential] <= threshold
    ensures Holds(pq, k, all, Settled(all, isMember, doc + 1))
  {
    if doc < |all| {
      NonEssentialBound(terms, maxScorePrefix, all, firstEssential, doc);
    }
    PassOver(pq, k, all, isMember, doc, doc + 1);
  }

  /**
   * Offering an evaluated candidate settles it; an abandoned partial sum is one the full heap
   * refuses.
   */
  lemma OfferCandidate(terms: seq<TermData>, maxScorePrefix: seq<real>, all: seq<real>, firstEssential: nat,
                       pq: seq<Item>, k: nat, isMember: nat -> bool, doc: nat, threshold: real, total: real)
    requires Context(terms, maxScorePrefix, all) && firstEssential <= |terms|
    requires k > 0 && Holds(pq, k, all, Settled(all, isMember, doc))
    requires threshold == if |pq| == k then pq[0].score else 0.0
    requires firstEssential > 0 ==> |pq| == k && pq[0].score > 0.0
    requires SumRange(terms, firstEssential, |terms|, doc) + maxScorePrefix[firstEssential] > threshold
    requires isMember(doc)
    requires total == FullScore(terms, doc) ||
             (firstEssential > 0 && total <= threshold && FullScore(terms, doc) <= threshold)
    ensures Holds(Offer(pq, k, Item(total, doc)), k, all, Settled(all, isMember, doc + 1))
  {
    if |pq| == k && total <= pq[0].score {
      PassOver(pq, k, all, isMember, doc, doc + 1);
    } else {
      PositiveCandidate(terms, maxScorePrefix, all, firstEssential, doc);
      OfferNext(pq, k, all, isMember, doc);
    }
  }

  lemma PositiveCandidate(terms: seq<TermData>, maxScorePrefix: seq<real>, all: seq<real>, firstEssential: nat, doc: nat)
    requires Context(terms, maxScorePrefix, all) && firstEssential <= |terms|
    requires FullScore(terms, doc) > 0.0 ||
             (firstEssential == 0 && SumRange(terms, firstEssential, |terms|, doc) + maxScorePrefix[0] > 0.0)
    ensures doc < |all| && all[doc] > 0.0
  {
    if doc >= |all| {
      NoPostings(terms, |terms|, doc);
    }
  }

  lemma {:induction false} NoPostings(terms: seq<TermData>, hi: nat, d: nat)
    requires hi <= |terms|
    requires forall i, p :: 0 <= i < |terms| && 0 <= p < |terms[i].list| ==> terms[i].list[p].doc != d
    ensures SumRange(terms, 0, hi, d) == 0.0
    decreases hi
  {
    if hi > 0 {
      NoPostings(terms, hi - 1, d);
      ListScoreAbsent(terms[hi - 1].list, |terms[hi - 1].list|, terms[hi - 1].queryWeight, d);
    }
  }

  /** Finishes an admitted candidate's score and offers it to the heap. */
  method CompleteCandidate(scorers: seq<DirectTermScorer>, ghost terms: seq<TermData>, firstEssential: nat,
                           doc: nat, essentialScore: real, maxScorePrefix: seq<real>,
                           ghost isMember: nat -> bool, heap: TopKHolder, ghost all: seq<real>, threshold: real)
    returns (newThreshold: real)
    requires Context(terms, maxScorePrefix, all)
    requires firstEssential <= |scorers|
    requires SearchState(scorers, terms, firstEssential, maxScorePrefix, heap, all, isMember, doc)
    requires essentialScore == SumRange(terms, firstEssential, |terms|, doc) && doc <= MAX_DOC
    requires threshold == Threshold(heap)
    requires essentialScore + maxScorePrefix[firstEssential] > threshold && isMember(doc)
    modifies scorers[..firstEssential], heap
    ensures SearchState(scorers, terms, firstEssential, maxScorePrefix, heap, all, isMember, doc + 1)
    ensures newThreshold == Threshold(heap) && (old(heap.Full()) ==> heap.Full() && threshold <= newThreshold)
    ensures NeverBack(old(Cursors(scorers)), Cursors(scorers))
  {
    hide SumRange, ValidTerms, Settled, NeverBack, Cursors;
    newThreshold := threshold;
    PrefixNonNegative(terms, firstEssential);
    ghost var pq := heap.pq;
    var totalScore := AddNonEssential(scorers, terms, firstEssential, doc, essentialScore, threshold, maxScorePrefix);
    assert heap.pq == pq;
    OfferCandidate(terms, maxScorePrefix, all, firstEssential, pq, heap.k, isMember, doc, threshold, totalScore);
    heap.Add(totalScore, doc);
    if heap.Full() {
      newThreshold := heap.PeekScore();
    }
  }

  /** Evaluates one marked slot of the window. */
  method EvaluateCandidate(scorers: seq<DirectTermScorer>, ghost terms: seq<TermData>, firstEssential: nat,
                           windowBase: nat, slot: nat, maxScorePrefix: seq<real>, windowScores: array<real>,
                           isMember: nat -> bool, heap: TopKHolder, ghost all: seq<real>, threshold: real)
    returns (newThreshold: real)
    requires Context(terms, maxScorePrefix, all)
    requires firstEssential <= |scorers|
    requires SearchState(scorers, terms, firstEssential, maxScorePrefix, heap, all, isMember, windowBase + slot)
    requires slot < windowScores.Length && windowBase + slot <= MAX_DOC
    requires windowScores[slot] == SumRange(terms, firstEssential, |terms|, windowBase + slot)
    requires threshold == Threshold(heap)
    modifies scorers[..firstEssential], windowScores, heap
    ensures SearchState(scorers, terms, firstEssential, maxScorePrefix, heap, all, isMember, windowBase + slot + 1)
    ensures windowScores[..] == old(windowScores[..])[slot := 0.0]
    ensures newThreshold == Threshold(heap) && (old(heap.Full()) ==> heap.Full() && threshold <= newThreshold)
    ensures NeverBack(old(Cursors(scorers)), Cursors(scorers))
  {
    hide Holds, SumRange, ValidTerms, NeverBack, Cursors;
    Unmoved(Cursors(scorers));
    newThreshold := threshold;
    var essentialScore := windowScores[slot];
    windowScores[slot] := 0.0;
    var doc := windowBase + slot;
    if essentialScore + maxScorePrefix[firstEssential] <= threshold {
      SkipCandidate(terms, maxScorePrefix, all, firstEssential, heap.pq, heap.k, isMember, doc, threshold);
      return;
    }
    if !isMember(doc) {
      SkipCandidate(terms, maxScorePrefix, all, firstEssential, heap.pq, heap.k, isMember, doc, threshold);
      return;
    }
    newThreshold := CompleteCandidate(scorers, terms, firstEssential, doc, essentialScore, maxScorePrefix,
                                      isMember, heap, all, threshold);
  }

  /** Documents no essential term scores cannot beat the heap the partition was drawn for. */
  lemma PassUnscored(terms: seq<TermData>, maxScorePrefix: seq<real>, all: seq<real>, firstEssential: nat,
                     pq: seq<Item>, k: nat, isMember: nat -> bool, f: nat, g: nat)
    requires Context(terms, maxScorePrefix, all) && firstEssential <= |terms|
    requires f <= g && Holds(pq, k, all, Settled(all, isMember, f))
    requires firstEssential > 0 ==> 0 < |pq| == k && maxScorePrefix[firstEssential] < pq[0].score
    requires forall d: nat :: f <= d < g ==> SumRange(terms, firstEssential, |terms|, d) == 0.0
    ensures Holds(pq, k, all, Settled(all, isMember, g))
  {
    forall d: nat | f <= d < g
      ensures Negligible(pq, k, all, isMember, d)
    {
      if d < |all| {
        NonEssentialBound(terms, maxScorePrefix, all, firstEssential, d);
      }
    }
    PassOver(pq, k, all, isMember, f, g);
  }

  /** Slots before `at` are evaluated and zeroed, the others still hold their essential sums. */
  ghost predicate WindowFrom(windowScores: array<real>, terms: seq<TermData>, firstEssential: nat, windowBase: nat, at: nat)
    requires firstEssential <= |terms|
    reads windowScores
  {
    && windowScores.Length == SCORE_WINDOW_SIZE
    && (forall s :: 0 <= s < at && s < SCORE_WINDOW_SIZE ==> windowScores[s] == 0.0)
    && (forall s :: at <= s < SCORE_WINDOW_SIZE ==>
          windowScores[s] == SumRange(terms, firstEssential, |terms|, windowBase + s))
  }

  /** The slots from..to carry no essential score and are settled without a visit. */
  lemma SkipSlots(scorers: seq<DirectTermScorer>, terms: seq<TermData>, firstEssential: nat, windowBase: nat,
                  maxScorePrefix: seq<real>, windowScores: array<real>, isMember: nat -> bool,
                  heap: TopKHolder, all: seq<real>, from: nat, to: nat)
    requires Context(terms, maxScorePrefix, all)
    requires firstEssential <= |scorers|
    requires SearchState(scorers, terms, firstEssential, maxScorePrefix, heap, all, isMember, windowBase + from)
    requires from <= to <= SCORE_WINDOW_SIZE
    requires WindowFrom(windowScores, terms, firstEssential, windowBase, from)
    requires forall d: nat :: windowBase + from <= d < windowBase + to ==> SumRange(terms, firstEssential, |terms|, d) == 0.0
    ensures SearchState(scorers, terms, firstEssential, maxScorePrefix, heap, all, isMember, windowBase + to)
    ensures WindowFrom(windowScores, terms, firstEssential, windowBase, to)
  {
    assert firstEssential > 0 ==> maxScorePrefix[firstEssential] < heap.PeekScore();
    PassUnscored(terms, maxScorePrefix, all, firstEssential, heap.pq, heap.k, isMember,
                 windowBase + from, windowBase + to);
  }

  /** Moves the walk from slot `from` to just past the marked slot. */
  method VisitSlot(scorers: seq<DirectTermScorer>, ghost terms: seq<TermData>, firstEssential: nat, windowBase: nat,
                   ghost from: nat, slot: nat, maxScorePrefix: seq<real>, windowScores: array<real>,
                   isMember: nat -> bool, heap: TopKHolder, ghost all: seq<real>, threshold: real)
    returns (newThreshold: real)
    requires Context(terms, maxScorePrefix, all)
    requires firstEssential <= |scorers|
    requires SearchState(scorers, terms, firstEssential, maxScorePrefix, heap, all, isMember, windowBase + from)
    requires from <= slot < SCORE_WINDOW_SIZE && windowBase + SCORE_WINDOW_SIZE <= MAX_DOC + 1
    requires WindowFrom(windowScores, terms, firstEssential, windowBase, from)
    requires forall d: nat :: windowBase + from <= d < windowBase + slot ==> SumRange(terms, firstEssential, |terms|, d) == 0.0
    requires threshold == Threshold(heap)
    modifies scorers[..firstEssential], windowScores, heap
    ensures SearchState(scorers, terms, firstEssential, maxScorePrefix, heap, all, isMember, windowBase + slot + 1)
    ensures WindowFrom(windowScores, terms, firstEssential, windowBase, slot + 1)
    ensures newThreshold == Threshold(heap) && (old(heap.Full()) ==> heap.Full() && threshold <= newThreshold)
    ensures NeverBack(old(Cursors(scorers)), Cursors(scorers))
  {
    SkipSlots(scorers, terms, firstEssential, windowBase, maxScorePrefix, windowScores, isMember, heap, all, from, slot);
    newThreshold := EvaluateCandidate(scorers, terms, firstEssential, windowBase, slot, maxScorePrefix,
                                      windowScores, isMember, heap, all, threshold);
    assert forall s :: 0 <= s < SCORE_WINDOW_SIZE ==> windowScores[s] == windowScores[..][s];
  }

  /** No essential term scores a document whose bit is clear in the word that starts at f. */
  ghost predicate ClearBitsUnscored(terms: seq<TermData>, lo: nat, f: nat, bits: Word)
    requires lo <= |terms|
  {
    forall d: nat :: f <= d < f + BITS && !bits[d - f] ==> SumRange(terms, lo, |terms|, d) == 0.0
  }

  /** `word` is what the walk over `bits` has left from bit `at` on. */
  ghost predicate BitsFrom(word: Word, bits: Word, at: nat) {
    forall b :: 0 <= b < BITS ==> word[b] == (at <= b && bits[b])
  }

  /** Finds and clears the lowest set bit. */
  method TakeLowest(word: Word, ghost bits: Word, ghost at: nat) returns (bit: nat, rest: Word)
    requires word != ZERO && BitsFrom(word, bits, at)
    ensures at <= bit < BITS && bits[bit]
    ensures forall b :: at <= b < bit ==> !bits[b]
    ensures BitsFrom(rest, bits, bit + 1)
  {
    bit := CountTrailingZeros(word);
    ClearLowest(word, bit);
    assert forall b :: at <= b < bit ==> word[b] == bits[b];
    rest := And(word, Decrement(word));
  }

  /** Evaluates the set bits of one bitmap word, lowest first. */
  method EvaluateWord(scorers: seq<DirectTermScorer>, ghost terms: seq<TermData>, firstEssential: nat, windowBase: nat,
                      first: nat, bits: Word, maxScorePrefix: seq<real>, windowScores: array<real>,
                      isMember: nat -> bool, heap: TopKHolder, ghost all: seq<real>, threshold: real)
    returns (newThreshold: real)
    requires Context(terms, maxScorePrefix, all)
    requires firstEssential <= |scorers|
    requires SearchState(scorers, terms, firstEssential, maxScorePrefix, heap, all, isMember, windowBase + first)
    requires |maxScorePrefix| == |terms| + 1
    requires first + BITS <= SCORE_WINDOW_SIZE && windowBase + SCORE_WINDOW_SIZE <= MAX_DOC + 1
    requires WindowFrom(windowScores, terms, firstEssential, windowBase, first)
    requires firstEssential <= |terms| && ClearBitsUnscored(terms, firstEssential, windowBase + first, bits)
    requires threshold == Threshold(heap)
    modifies scorers[..firstEssential], windowScores, heap
    ensures SearchState(scorers, terms, firstEssential, maxScorePrefix, heap, all, isMember, windowBase + first + BITS)
    ensures WindowFrom(windowScores, terms, firstEssential, windowBase, first + BITS)
    ensures newThreshold == Threshold(heap) && (old(heap.Full()) ==> heap.Full() && threshold <= newThreshold)
    ensures NeverBack(old(Cursors(scorers)), Cursors(scorers))
  {
    hide Holds, ScorersOver, Behind, Context, NeverBack, Cursors;
    Unmoved(Cursors(scorers));
    newThreshold := threshold;
    var word := bits;
    ghost var at: nat := 0;
    while word != ZERO
      invariant at <= BITS
      invariant BitsFrom(word, bits, at)
      invariant SearchState(scorers, terms, firstEssential, maxScorePrefix, heap, all, isMember, windowBase + (first + at))
      invariant WindowFrom(windowScores, terms, firstEssential, windowBase, first + at)
      invariant newThreshold == Threshold(heap) && (old(heap.Full()) ==> heap.Full() && threshold <= newThreshold)
      invariant NeverBack(old(Cursors(scorers)), Cursors(scorers))
      decreases BITS - at
    {
      ghost var was := Cursors(scorers);
      var bit, rest := TakeLowest(word, bits, at);
      word := rest;
      newThreshold := VisitSlot(scorers, terms, firstEssential, windowBase, first + at, first + bit, maxScorePrefix,
                                windowScores, isMember, heap, all, newThreshold);
      Onward(old(Cursors(scorers)), was, Cursors(scorers));
      at := bit + 1;
    }
    assert forall b :: at <= b < BITS ==> word[b] == ZERO[b];
    SkipSlots(scorers, terms, firstEssential, windowBase, maxScorePrefix, windowScores, isMember, heap, all,
              first + at, first + BITS);
  }

  lemma UnmarkedUnscored(bits: seq<Word>, scores: seq<real>, terms: seq<TermData>, lo: nat, windowBase: nat,
                         wordIdx: nat, first: nat)
    requires lo <= |terms| && wordIdx < BITMAP_WORDS && first == wordIdx * 64
    requires HoldsSums(scores, terms, lo, |terms|, windowBase) && ZeroUnlessMarked(bits, scores)
    ensures ClearBitsUnscored(terms, lo, windowBase + first, bits[wordIdx])
  {
    forall d: nat | windowBase + first <= d < windowBase + first + BITS && !bits[wordIdx][d - (windowBase + first)]
      ensures SumRange(terms, lo, |terms|, d) == 0.0
    {
      var s := d - windowBase;
      assert s / 64 == wordIdx && s % 64 == s - first;
      assert !Touched(bits, s) && scores[s] == 0.0;
      assert scores[s] == SumRange(terms, lo, |terms|, windowBase + s);
    }
  }

  lemma WindowStart(windowScores: array<real>, terms: seq<TermData>, firstEssential: nat, windowBase: nat)
    requires firstEssential <= |terms| && windowScores.Length == SCORE_WINDOW_SIZE
    requires HoldsSums(windowScores[..], terms, firstEssential, |terms|, windowBase)
    ensures WindowFrom(windowScores, terms, firstEssential, windowBase, 0)
  {
    assert forall s :: 0 <= s < SCORE_WINDOW_SIZE ==> windowScores[s] == windowScores[..][s];
  }

  /** Walks the bitmap word by word. */
  method EvaluateWords(scorers: seq<DirectTermScorer>, ghost terms: seq<TermData>, firstEssential: nat,
                       windowBase: nat, maxScorePrefix: seq<real>, windowScores: array<real>, ghost scores: seq<real>,
                       bitmap: seq<Word>, isMember: nat -> bool, heap: TopKHolder, ghost all: seq<real>, start: real)
    returns (threshold: real)
    requires Context(terms, maxScorePrefix, all) && |maxScorePrefix| == |terms| + 1
    requires firstEssential <= |scorers|
    requires SearchState(scorers, terms, firstEssential, maxScorePrefix, heap, all, isMember, windowBase)
    requires windowBase + SCORE_WINDOW_SIZE <= MAX_DOC + 1 && |bitmap| == BITMAP_WORDS
    requires WindowFrom(windowScores, terms, firstEssential, windowBase, 0)
    requires HoldsSums(scores, terms, firstEssential, |terms|, windowBase) && ZeroUnlessMarked(bitmap, scores)
    requires start == Threshold(heap)
    modifies scorers[..firstEssential], windowScores, heap
    ensures SearchState(scorers, terms, firstEssential, maxScorePrefix, heap, all, isMember, windowBase + SCORE_WINDOW_SIZE)
    ensures WindowFrom(windowScores, terms, firstEssential, windowBase, SCORE_WINDOW_SIZE)
    ensures threshold == Threshold(heap) && (old(heap.Full()) ==> heap.Full() && start <= threshold)
    ensures NeverBack(old(Cursors(scorers)), Cursors(scorers))
  {
    hide Holds, ScorersOver, Behind, Context, NeverBack, Cursors;
    Unmoved(Cursors(scorers));
    threshold := start;
    var first := 0;
    for wordIdx := 0 to BITMAP_WORDS
      invariant first == wordIdx * 64
      invariant SearchState(scorers, terms, firstEssential, maxScorePrefix, heap, all, isMember, windowBase + first)
      invariant WindowFrom(windowScores, terms, firstEssential, windowBase, first)
      invariant threshold == Threshold(heap) && (old(heap.Full()) ==> heap.Full() && start <= threshold)
      invariant NeverBack(old(Cursors(scorers)), Cursors(scorers))
    {
      ghost var was := Cursors(scorers);
      UnmarkedUnscored(bitmap, scores, terms, firstEssential, windowBase, wordIdx, first);
      threshold := EvaluateWord(scorers, terms, firstEssential, windowBase, first, bitmap[wordIdx], maxScorePrefix,
                                windowScores, isMember, heap, all, threshold);
      Onward(old(Cursors(scorers)), was, Cursors(scorers));
      first := first + BITS;
    }
  }

  /** Walks the marked slots in ascending order, leaving the window zero. */
  method EvaluateWindowCandidates(scorers: seq<DirectTermScorer>, ghost terms: seq<TermData>, firstEssential: nat,
                                  windowBase: nat, maxScorePrefix: seq<real>, windowScores: array<real>,
                                  bitmap: seq<Word>, isMember: nat -> bool, heap: TopKHolder, ghost all: seq<real>)
    requires Context(terms, maxScorePrefix, all) && |maxScorePrefix| == |terms| + 1
    requires firstEssential <= |scorers|
    requires SearchState(scorers, terms, firstEssential, maxScorePrefix, heap, all, isMember, windowBase)
    requires windowBase + SCORE_WINDOW_SIZE <= MAX_DOC + 1
    requires windowScores.Length == SCORE_WINDOW_SIZE && |bitmap| == BITMAP_WORDS
    requires HoldsSums(windowScores[..], terms, firstEssential, |terms|, windowBase)
    requires ZeroUnlessMarked(bitmap, windowScores[..])
    modifies scorers[..firstEssential], windowScores, heap
    ensures SearchState(scorers, terms, firstEssential, maxScorePrefix, heap, all, isMember, windowBase + SCORE_WINDOW_SIZE)
    ensures Clean(windowScores)
    ensures old(heap.Full()) ==> heap.Full() && old(Threshold(heap)) <= Threshold(heap)
    ensures NeverBack(old(Cursors(scorers)), Cursors(scorers))
  {
    hide Holds, ScorersOver, Behind, Context, NeverBack, Cursors;
    var threshold := if heap.Full() then heap.PeekScore() else 0.0;
    WindowStart(windowScores, terms, firstEssential, windowBase);
    threshold := EvaluateWords(scorers, terms, firstEssential, windowBase, maxScorePrefix, windowScores,
                               windowScores[..], bitmap, isMember, heap, all, threshold);
    WindowDone(windowScores, terms, firstEssential, windowBase);
  }

  lemma WindowDone(windowScores: array<real>, terms: seq<TermData>, firstEssential: nat, windowBase: nat)
    requires firstEssential <= |terms|
    requires WindowFrom(windowScores, terms, firstEssential, windowBase, SCORE_WINDOW_SIZE)
    ensures Clean(windowScores)
  {
  }

  // ---------------------------------------------------------------- the search loop

  lemma {:induction false} SumZero(terms: seq<TermData>, lo: nat, hi: nat, d: nat)
    requires lo <= hi <= |terms|
    requires forall i :: lo <= i < hi ==> TermScore(terms[i], d) == 0.0
    ensures SumRange(terms, lo, hi, d) == 0.0
    decreases hi
  {
    if lo < hi {
      SumZero(terms, lo, hi - 1, d);
    }
  }

  /** A document no essential cursor will meet and none has met is unscored by the essential terms. */
  lemma EssentialGap(scorers: seq<DirectTermScorer>, terms: seq<TermData>, firstEssential: nat, f: int, g: int)
    requires ScorersOver(scorers, terms) && firstEssential <= |terms|
    requires forall i :: firstEssential <= i < |scorers| ==> Behind(scorers[i], f) && Ahead(scorers[i], g)
    ensures forall d: nat :: f <= d < g ==> SumRange(terms, firstEssential, |terms|, d) == 0.0
  {
    forall d: nat | f <= d < g
      ensures SumRange(terms, firstEssential, |terms|, d) == 0.0
    {
      forall i | firstEssential <= i < |terms|
        ensures TermScore(terms[i], d) == 0.0
      {
        assert Behind(scorers[i], f) && Ahead(scorers[i], g);
        ListScoreAbsent(terms[i].list, |terms[i].list|, terms[i].queryWeight, d);
      }
      SumZero(terms, firstEssential, |terms|, d);
    }
  }

  /** Between windows: the essential cursors split their lists exactly at the frontier f. */
  ghost predicate LoopState(scorers: seq<DirectTermScorer>, terms: seq<TermData>, firstEssential: nat,
                            maxScorePrefix: seq<real>, heap: TopKHolder, all: seq<real>,
                            isMember: nat -> bool, f: int)
    requires |maxScorePrefix| == |terms| + 1
    reads scorers, heap
  {
    && SearchState(scorers, terms, firstEssential, maxScorePrefix, heap, all, isMember, f)
    && f % SCORE_WINDOW_SIZE == 0
    && forall i :: firstEssential <= i < |scorers| ==> Behind(scorers[i], f) && Ahead(scorers[i], f)
  }

  /** The first n prefix sums stay below the threshold, and the next one, if any, does not. */
  ghost predicate SplitsAt(maxScorePrefix: seq<real>, threshold: real, n: nat) {
    && n < |maxScorePrefix|
    && (forall j :: 1 <= j <= n ==> maxScorePrefix[j] < threshold)
    && (n + 1 < |maxScorePrefix| ==> maxScorePrefix[n + 1] >= threshold)
  }

  /** The number of leading terms that together stay below the threshold. */
  method Partition(maxScorePrefix: seq<real>, size: nat, threshold: real) returns (firstEssential: nat)
    requires |maxScorePrefix| == size + 1
    ensures SplitsAt(maxScorePrefix, threshold, firstEssential)
  {
    firstEssential := 0;
    for i := 0 to size
      invariant firstEssential == i
      invariant forall j :: 1 <= j <= i ==> maxScorePrefix[j] < threshold
    {
      if maxScorePrefix[i + 1] < threshold {
        firstEssential := i + 1;
      } else {
        break;
      }
    }
  }

  /** A risen threshold only moves terms from the essential to the non-essential side. */
  method Repartition(scorers: seq<DirectTermScorer>, ghost terms: seq<TermData>, ghost current: nat,
                     maxScorePrefix: seq<real>, heap: TopKHolder, ghost all: seq<real>,
                     ghost isMember: nat -> bool, ghost f: int)
    returns (firstEssential: nat)
    requires |maxScorePrefix| == |terms| + 1 && heap.k > 0
    requires LoopState(scorers, terms, current, maxScorePrefix, heap, all, isMember, f) && heap.Full()
    ensures current <= firstEssential && SplitsAt(maxScorePrefix, heap.PeekScore(), firstEssential)
    ensures LoopState(scorers, terms, firstEssential, maxScorePrefix, heap, all, isMember, f)
  {
    firstEssential := Partition(maxScorePrefix, |scorers|, heap.PeekScore());
    hide Holds, Ahead;
  }

  /** The smallest document any essential cursor stands on, or NO_MORE_DOCS. */
  method MinEssentialDoc(scorers: seq<DirectTermScorer>, ghost terms: seq<TermData>, firstEssential: nat, ghost f: int)
    returns (minDocId: int)
    requires ValidTerms(terms) && ScorersOver(scorers, terms) && firstEssential <= |scorers|
    requires forall i :: firstEssential <= i < |scorers| ==> Ahead(scorers[i], f)
    ensures minDocId == NO_MORE_DOCS || f <= minDocId <= MAX_DOC
    ensures forall i :: firstEssential <= i < |scorers| ==> Ahead(scorers[i], minDocId)
    ensures minDocId != NO_MORE_DOCS ==> exists i :: firstEssential <= i < |scorers| && scorers[i].DocId() == minDocId
  {
    minDocId := NO_MORE_DOCS;
    for i := firstEssential to |scorers|
      invariant minDocId == NO_MORE_DOCS || f <= minDocId <= MAX_DOC
      invariant forall j :: firstEssential <= j < i ==> minDocId <= scorers[j].DocId()
      invariant minDocId != NO_MORE_DOCS ==> exists j :: firstEssential <= j < i && scorers[j].DocId() == minDocId
    {
      var doc := scorers[i].DocId();
      if doc < minDocId {
        minDocId := doc;
      }
    }
    forall i | firstEssential <= i < |scorers|
      ensures Ahead(scorers[i], minDocId)
    {
      assert minDocId <= scorers[i].DocId();
    }
  }

  /** memset of the bitmap. */
  method ClearBitmap(bitmap: array<Word>)
    requires bitmap.Length == BITMAP_WORDS
    modifies bitmap
    ensures forall i :: 0 <= i < BITMAP_WORDS ==> bitmap[i] == ZERO
  {
    for i := 0 to BITMAP_WORDS
      invariant forall j :: 0 <= j < i ==> bitmap[j] == ZERO
    {
      bitmap[i] := ZERO;
    }
  }

  /** The documents between the frontier and the next window belong to no essential list. */
  lemma ReachWindow(scorers: seq<DirectTermScorer>, terms: seq<TermData>, firstEssential: nat,
                    maxScorePrefix: seq<real>, heap: TopKHolder, all: seq<real>, isMember: nat -> bool,
                    f: nat, minDocId: int, g: nat)
    requires Context(terms, maxScorePrefix, all)
    requires LoopState(scorers, terms, firstEssential, maxScorePrefix, heap, all, isMember, f)
    requires f <= g <= minDocId
    requires forall i :: firstEssential <= i < |scorers| ==> Ahead(scorers[i], minDocId)
    ensures SearchState(scorers, terms, firstEssential, maxScorePrefix, heap, all, isMember, g)
    ensures forall i :: firstEssential <= i < |scorers| ==> Behind(scorers[i], g)
  {
    EssentialGap(scorers, terms, firstEssential, f, minDocId);
    assert firstEssential > 0 ==> maxScorePrefix[firstEssential] < heap.PeekScore();
    PassUnscored(terms, maxScorePrefix, all, firstEssential, heap.pq, heap.k, isMember, f, g);
    hide Holds;
  }

  /** One window: score the essential terms into the slots, then evaluate the marked ones. */
  method SearchWindow(scorers: seq<DirectTermScorer>, ghost terms: seq<TermData>, firstEssential: nat,
                      maxScorePrefix: seq<real>, windowBase: nat, windowScores: array<real>, bitmap: array<Word>,
                      isMember: nat -> bool, heap: TopKHolder, ghost all: seq<real>)
    requires Context(terms, maxScorePrefix, all) && |maxScorePrefix| == |terms| + 1
    requires SearchState(scorers, terms, firstEssential, maxScorePrefix, heap, all, isMember, windowBase)
    requires forall i :: firstEssential <= i < |scorers| ==> Behind(scorers[i], windowBase)
    requires windowBase % SCORE_WINDOW_SIZE == 0 && windowBase <= MAX_DOC
    requires Clean(windowScores) && bitmap.Length == BITMAP_WORDS
    modifies scorers, windowScores, bitmap, heap
    ensures LoopState(scorers, terms, firstEssential, maxScorePrefix, heap, all, isMember, windowBase + SCORE_WINDOW_SIZE)
    ensures Clean(windowScores)
    ensures old(heap.Full()) ==> heap.Full() && old(Threshold(heap)) <= Threshold(heap)
    ensures NeverBack(old(Cursors(scorers)), Cursors(scorers))
  {
    hide Holds, Context, HoldsSums, ZeroUnlessMarked, ValidTerms, NeverBack, Cursors;
    ContextTerms(terms, maxScorePrefix, all);
    var windowEnd := windowBase + SCORE_WINDOW_SIZE;
    ClearBitmap(bitmap);
    ScoreEssentialTerms(scorers, terms, firstEssential, windowBase, windowEnd, windowScores, bitmap);
    ghost var scored := Cursors(scorers);
    EvaluateWindowCandidates(scorers, terms, firstEssential, windowBase, maxScorePrefix, windowScores,
                             bitmap[..], isMember, heap, all);
    Onward(old(Cursors(scorers)), scored, Cursors(scorers));
  }

  lemma MovingScorer(scorers: seq<DirectTermScorer>, terms: seq<TermData>, firstEssential: nat, minDocId: int) returns (i: nat)
    requires ScorersOver(scorers, terms) && minDocId != NO_MORE_DOCS
    requires exists i :: firstEssential <= i < |scorers| && scorers[i].DocId() == minDocId
    ensures firstEssential <= i < |scorers|
    ensures var at := Cursors(scorers)[i];
            0 <= at < |scorers[i].term.list| && scorers[i].term.list[at].doc == minDocId
  {
    i :| firstEssential <= i < |scorers| && scorers[i].DocId() == minDocId;
  }

  lemma LoopFacts(scorers: seq<DirectTermScorer>, terms: seq<TermData>, firstEssential: nat,
                  maxScorePrefix: seq<real>, heap: TopKHolder, all: seq<real>, isMember: nat -> bool, f: int)
    requires |maxScorePrefix| == |terms| + 1 && LoopState(scorers, terms, firstEssential, maxScorePrefix, heap, all, isMember, f)
    ensures ScorersOver(scorers, terms) && heap.Valid() && firstEssential <= |scorers| == |terms|
    ensures forall i :: firstEssential <= i < |scorers| ==> Ahead(scorers[i], f)
    ensures |Cursors(scorers)| == |scorers| && f % SCORE_WINDOW_SIZE == 0
  {
  }

  /** The cursor that stood on the smallest document has moved past the window's end. */
  lemma PostingConsumed(before: seq<int>, scorers: seq<DirectTermScorer>, firstEssential: nat, i: nat, minDocId: int, g: int)
    requires NeverBack(before, Cursors(scorers)) && firstEssential <= i < |scorers| && Ahead(scorers[i], g) && minDocId < g
    requires 0 <= before[i] < |scorers[i].term.list| && scorers[i].term.list[before[i]].doc == minDocId
    ensures Consumed(before, Cursors(scorers), firstEssential)
  {
    assert before[i] < Cursors(scorers)[i];
  }

  lemma MinInCorpus(scorers: seq<DirectTermScorer>, terms: seq<TermData>, firstEssential: nat,
                    maxScorePrefix: seq<real>, all: seq<real>, minDocId: int)
    requires Context(terms, maxScorePrefix, all) && ScorersOver(scorers, terms) && minDocId != NO_MORE_DOCS
    requires exists i :: firstEssential <= i < |scorers| && scorers[i].DocId() == minDocId
    ensures minDocId < |all|
  {
  }

  /** With no essential posting left, everything is settled. */
  lemma SearchDone(scorers: seq<DirectTermScorer>, terms: seq<TermData>, firstEssential: nat,
                   maxScorePrefix: seq<real>, heap: TopKHolder, all: seq<real>, isMember: nat -> bool, f: nat)
    requires Context(terms, maxScorePrefix, all)
    requires LoopState(scorers, terms, firstEssential, maxScorePrefix, heap, all, isMember, f)
    requires forall i :: firstEssential <= i < |scorers| ==> Ahead(scorers[i], NO_MORE_DOCS)
    ensures Holds(heap.pq, heap.k, all, Settled(all, isMember, |all|))
  {
    if f <= |all| {
      ReachWindow(scorers, terms, firstEssential, maxScorePrefix, heap, all, isMember, f, NO_MORE_DOCS, |all|);
    } else {
      assert Settled(all, isMember, f) == Settled(all, isMember, |all|);
    }
  }

  /** Searches the window of the smallest essential document; its posting is consumed. */
  method WindowOf(scorers: seq<DirectTermScorer>, ghost terms: seq<TermData>, firstEssential: nat, maxScorePrefix: seq<real>,
                  minDocId: nat, windowScores: array<real>, bitmap: array<Word>, isMember: nat -> bool, heap: TopKHolder,
                  ghost all: seq<real>, ghost f: nat)
    returns (ghost g: nat)
    requires Context(terms, maxScorePrefix, all) && |maxScorePrefix| == |terms| + 1
    requires LoopState(scorers, terms, firstEssential, maxScorePrefix, heap, all, isMember, f)
    requires Clean(windowScores) && bitmap.Length == BITMAP_WORDS
    requires f <= minDocId <= MAX_DOC && forall i :: firstEssential <= i < |scorers| ==> Ahead(scorers[i], minDocId)
    requires ScorersOver(scorers, terms) && exists i :: firstEssential <= i < |scorers| && scorers[i].DocId() == minDocId
    modifies scorers, windowScores, bitmap, heap
    ensures LoopState(scorers, terms, firstEssential, maxScorePrefix, heap, all, isMember, g)
    ensures Clean(windowScores) && minDocId < g <= minDocId + SCORE_WINDOW_SIZE
    ensures old(heap.Full()) ==> heap.Full() && old(Threshold(heap)) <= Threshold(heap)
    ensures NeverBack(old(Cursors(scorers)), Cursors(scorers))
    ensures Consumed(old(Cursors(scorers)), Cursors(scorers), firstEssential)
  {
    hide LoopState, SearchState, ScorersOver, Holds, Clean, Behind, Ahead, Context, ValidTerms, NeverBack, Cursors;
    LoopFacts(scorers, terms, firstEssential, maxScorePrefix, heap, all, isMember, f);
    var windowBase := (minDocId / SCORE_WINDOW_SIZE) * SCORE_WINDOW_SIZE;
    ReachWindow(scorers, terms, firstEssential, maxScorePrefix, heap, all, isMember, f, minDocId, windowBase);
    ghost var was := Cursors(scorers);
    ghost var i := MovingScorer(scorers, terms, firstEssential, minDocId);
    SearchWindow(scorers, terms, firstEssential, maxScorePrefix, windowBase, windowScores, bitmap, isMember, heap, all);
    g := windowBase + SCORE_WINDOW_SIZE;
    LoopFacts(scorers, terms, firstEssential, maxScorePrefix, heap, all, isMember, g);
    PostingConsumed(was, scorers, firstEssential, i, minDocId, g);
  }

  /**
   * One iteration: repartition, find the next essential document, search its window. The partition
   * point never drops, no cursor retreats, and every iteration consumes an essential posting and
   * moves the frontier past its document.
   */
  method SearchStep(scorers: seq<DirectTermScorer>, ghost terms: seq<TermData>, current: nat, maxScorePrefix: seq<real>,
                    windowScores: array<real>, bitmap: array<Word>, isMember: nat -> bool, heap: TopKHolder,
                    ghost all: seq<real>, ghost f: nat)
    returns (more: bool, firstEssential: nat, ghost g: nat)
    requires Context(terms, maxScorePrefix, all) && |maxScorePrefix| == |terms| + 1 && heap.k > 0
    requires LoopState(scorers, terms, current, maxScorePrefix, heap, all, isMember, f)
    requires Clean(windowScores) && bitmap.Length == BITMAP_WORDS
    modifies scorers, windowScores, bitmap, heap
    ensures LoopState(scorers, terms, firstEssential, maxScorePrefix, heap, all, isMember, g)
    ensures Clean(windowScores)
    ensures current <= firstEssential
    ensures if old(heap.Full()) then SplitsAt(maxScorePrefix, old(heap.PeekScore()), firstEssential) else firstEssential == current
    ensures old(heap.Full()) ==> heap.Full() && old(Threshold(heap)) <= Threshold(heap)
    ensures more ==> f < g <= |all| + SCORE_WINDOW_SIZE
    ensures !more ==> forall i :: firstEssential <= i < |scorers| ==> Ahead(scorers[i], NO_MORE_DOCS)
    ensures NeverBack(old(Cursors(scorers)), Cursors(scorers))
    ensures more ==> Consumed(old(Cursors(scorers)), Cursors(scorers), firstEssential)
  {
    hide LoopState, SearchState, ScorersOver, Holds, Clean, Behind, Ahead, Context, ValidTerms, NeverBack, Cursors, SplitsAt;
    ContextTerms(terms, maxScorePrefix, all);
    LoopFacts(scorers, terms, current, maxScorePrefix, heap, all, isMember, f);
    Unmoved(Cursors(scorers));
    firstEssential, g := current, f;
    if heap.Full() {
      firstEssential := Repartition(scorers, terms, firstEssential, maxScorePrefix, heap, all, isMember, f);
    }
    LoopFacts(scorers, terms, firstEssential, maxScorePrefix, heap, all, isMember, f);
    var minDocId := MinEssentialDoc(scorers, terms, firstEssential, f);
    if minDocId == NO_MORE_DOCS {
      return false, firstEssential, f;
    }
    MinInCorpus(scorers, terms, firstEssential, maxScorePrefix, all, minDocId);
    g := WindowOf(scorers, terms, firstEssential, maxScorePrefix, minDocId, windowScores, bitmap, isMember, heap, all, f);
    more := true;
  }

  lemma SearchStart(scorers: seq<DirectTermScorer>, terms: seq<TermData>, maxScorePrefix: seq<real>,
                    heap: TopKHolder, all: seq<real>, isMember: nat -> bool)
    requires |maxScorePrefix| == |terms| + 1 && ScorersOver(scorers, terms)
    requires forall i :: 0 <= i < |scorers| ==> scorers[i].currentIndex == 0
    requires heap.Valid() && heap.pq == []
    ensures LoopState(scorers, terms, 0, maxScorePrefix, heap, all, isMember, 0)
  {
    assert Settled(all, isMember, 0) == {};
  }

  /** The MaxScore loop, from cursors on their first postings to a heap that has settled everything. */
  method RunSearch(scorers: seq<DirectTermScorer>, ghost terms: seq<TermData>, maxScorePrefix: seq<real>,
                   windowScores: array<real>, bitmap: array<Word>, isMember: nat -> bool, heap: TopKHolder,
                   ghost all: seq<real>)
    requires Context(terms, maxScorePrefix, all) && |maxScorePrefix| == |terms| + 1 && ScorersOver(scorers, terms)
    requires forall i :: 0 <= i < |scorers| ==> scorers[i].currentIndex == 0
    requires heap.Valid() && heap.pq == []
    requires Clean(windowScores) && bitmap.Length == BITMAP_WORDS
    modifies scorers, windowScores, bitmap, heap
    ensures Clean(windowScores) && heap.Valid()
    ensures Holds(heap.pq, heap.k, all, Settled(all, isMember, |all|))
  {
    SearchStart(scorers, terms, maxScorePrefix, heap, all, isMember);
    hide Holds, Clean, Behind, Ahead, Context, ScorersOver;
    var firstEssential, more := 0, true;
    ghost var f: nat := 0;
    while more
      invariant heap.k > 0 && LoopState(scorers, terms, firstEssential, maxScorePrefix, heap, all, isMember, f)
      invariant Clean(windowScores)
      invariant !more ==> forall i :: firstEssential <= i < |scorers| ==> Ahead(scorers[i], NO_MORE_DOCS)
      decreases more, |all| + SCORE_WINDOW_SIZE - f
    {
      more, firstEssential, f := SearchStep(scorers, terms, firstEssential, maxScorePrefix, windowScores, bitmap,
                                            isMember, heap, all, f);
    }
    SearchDone(scorers, terms, firstEssential, maxScorePrefix, heap, all, isMember, f);
  }

  // ---------------------------------------------------------------- building the scorers

  /** The true score of every document. */
  ghost function DocScores(rows: seq<Row>, query: Row): (all: seq<real>)
    ensures |all| == |rows| && forall d :: 0 <= d < |rows| ==> all[d] == Dot(rows[d], query)
  {
    seq(|rows|, d requires 0 <= d < |rows| => Dot(rows[d], query))
  }

  /** The lists and maxima of a built index. */
  ghost predicate BuiltFrom(lists: seq<seq<Posting>>, maxTermScores: seq<real>, rows: seq<Row>) {
    && |maxTermScores| == |lists|
    && (forall t :: 0 <= t < |lists| ==> lists[t] == PostingsOf(rows, t))
    && (forall t :: 0 <= t < |lists| ==> maxTermScores[t] >= 0.0)
    && (forall t, p :: 0 <= t < |lists| && 0 <= p < |lists[t]| ==> lists[t][p].value <= maxTermScores[t])
  }

  /** A query entry joined with its list; a term past the dimension gets an exhausted scorer. */
  function Join(e: Entry, lists: seq<seq<Posting>>, maxTermScores: seq<real>): TermData
    requires |maxTermScores| == |lists|
  {
    if e.term >= |lists| then TermData([], e.value, 0.0)
    else TermData(lists[e.term], e.value, e.value * maxTermScores[e.term])
  }

  function JoinAll(query: Row, lists: seq<seq<Posting>>, maxTermScores: seq<real>): (terms: seq<TermData>)
    requires |maxTermScores| == |lists|
    ensures |terms| == |query|
    ensures forall i :: 0 <= i < |query| ==> terms[i] == Join(query[i], lists, maxTermScores)
  {
    seq(|query|, i requires 0 <= i < |query| => Join(query[i], lists, maxTermScores))
  }

  lemma JoinedValid(e: Entry, lists: seq<seq<Posting>>, maxTermScores: seq<real>, rows: seq<Row>)
    requires BuiltFrom(lists, maxTermScores, rows) && Corpus(rows, |lists|) && |rows| <= MAX_DOC + 1
    requires e.value >= 0.0
    ensures ValidTerm(Join(e, lists, maxTermScores))
    ensures forall p :: 0 <= p < |Join(e, lists, maxTermScores).list| ==> Join(e, lists, maxTermScores).list[p].doc < |rows|
  {
    if e.term < |lists| {
      var list := lists[e.term];
      PostingsAscend(rows, e.term);
      PostingsInRange(rows, e.term);
      ScaleMonotone(e.value, 0.0, maxTermScores[e.term]);
      forall p | 0 <= p < |list|
        ensures e.value * list[p].value <= e.value * maxTermScores[e.term]
      {
        ScaleMonotone(e.value, list[p].value, maxTermScores[e.term]);
      }
    }
  }

  lemma JoinedScore(e: Entry, lists: seq<seq<Posting>>, maxTermScores: seq<real>, rows: seq<Row>, d: nat)
    requires BuiltFrom(lists, maxTermScores, rows) && Corpus(rows, |lists|) && d < |rows|
    ensures TermScore(Join(e, lists, maxTermScores), d) == Weighted(e.value, rows[d], e.term)
  {
    if e.term < |lists| {
      PostingsScore(rows, e.term, e.value, d);
    } else {
      assert !Carries(rows[d], e.term);
      WeightedAbsent(e.value, rows[d], e.term);
    }
  }

  lemma {:induction false} JoinedScores(query: Row, n: nat, terms: seq<TermData>, lists: seq<seq<Posting>>,
                                        maxTermScores: seq<real>, rows: seq<Row>, d: nat)
    requires BuiltFrom(lists, maxTermScores, rows) && Corpus(rows, |lists|) && d < |rows|
    requires n <= |query| && terms == JoinAll(query, lists, maxTermScores)
    ensures SumRange(terms, 0, n, d) == Dot(rows[d], query[..n])
  {
    if n > 0 {
      JoinedScores(query, n - 1, terms, lists, maxTermScores, rows, d);
      JoinedScore(query[n - 1], lists, maxTermScores, rows, d);
      assert query[..n][..n - 1] == query[..n - 1];
    }
  }

  /** One cursor per term, on its first posting. */
  method StartScorers(terms: seq<TermData>) returns (scorers: seq<DirectTermScorer>)
    ensures fresh(scorers) && ScorersOver(scorers, terms)
    ensures forall i :: 0 <= i < |scorers| ==> scorers[i].currentIndex == 0
  {
    scorers := [];
    for i := 0 to |terms|
      invariant |scorers| == i && fresh(scorers)
      invariant forall a, b :: 0 <= a < b < i ==> scorers[a] != scorers[b]
      invariant forall a :: 0 <= a < i ==> scorers[a].term == terms[a] && scorers[a].currentIndex == 0
    {
      var scorer := new DirectTermScorer(terms[i]);
      var _ := scorer.NextDoc();
      scorers := scorers + [scorer];
    }
  }

  method PrefixSums(terms: seq<TermData>) returns (maxScorePrefix: seq<real>)
    ensures |maxScorePrefix| == |terms| + 1
    ensures forall j :: 0 <= j <= |terms| ==> maxScorePrefix[j] == PrefixMax(terms, j)
  {
    maxScorePrefix := [0.0];
    for i := 0 to |terms|
      invariant |maxScorePrefix| == i + 1
      invariant forall j :: 0 <= j <= i ==> maxScorePrefix[j] == PrefixMax(terms, j)
    {
      maxScorePrefix := maxScorePrefix + [maxScorePrefix[i] + terms[i].maxScore];
    }
  }

  /** Joins the query with its lists, lowest bound first, with the running sums of the bounds. */
  method BuildScorers(query: Row, lists: seq<seq<Posting>>, maxTermScores: seq<real>)
    returns (scorers: seq<DirectTermScorer>, maxScorePrefix: seq<real>, ghost terms: seq<TermData>)
    requires |maxTermScores| == |lists|
    ensures fresh(scorers) && ScorersOver(scorers, terms)
    ensures forall i :: 0 <= i < |scorers| ==> scorers[i].currentIndex == 0
    ensures multiset(terms) == multiset(JoinAll(query, lists, maxTermScores))
    ensures forall i, j :: 0 <= i < j < |terms| ==> terms[i].maxScore <= terms[j].maxScore
    ensures |maxScorePrefix| == |terms| + 1
    ensures forall j :: 0 <= j <= |terms| ==> maxScorePrefix[j] == PrefixMax(terms, j)
  {
    var sorted := Sorting.SortBy(JoinAll(query, lists, maxTermScores), (t: TermData) => t.maxScore);
    scorers := StartScorers(sorted);
    terms := sorted;
    maxScorePrefix := PrefixSums(sorted);
  }

  /** Sorted, joined terms give the search everything it relies on. */
  lemma ContextHolds(query: Row, terms: seq<TermData>, maxScorePrefix: seq<real>, lists: seq<seq<Posting>>,
                     maxTermScores: seq<real>, rows: seq<Row>)
    requires BuiltFrom(lists, maxTermScores, rows) && Corpus(rows, |lists|) && |rows| <= MAX_DOC + 1
    requires NonNegative(query)
    requires multiset(terms) == multiset(JoinAll(query, lists, maxTermScores))
    requires |maxScorePrefix| == |terms| + 1
    requires forall j :: 0 <= j <= |terms| ==> maxScorePrefix[j] == PrefixMax(terms, j)
    ensures Context(terms, maxScorePrefix, DocScores(rows, query))
  {
    var joined := JoinAll(query, lists, maxTermScores);
    forall i | 0 <= i < |terms|
      ensures ValidTerm(terms[i])
      ensures forall p :: 0 <= p < |terms[i].list| ==> terms[i].list[p].doc < |rows|
    {
      assert terms[i] in multiset(terms);
      var j :| 0 <= j < |joined| && joined[j] == terms[i];
      JoinedValid(query[j], lists, maxTermScores, rows);
    }
    forall d | 0 <= d < |rows|
      ensures FullScore(terms, d) == Dot(rows[d], query)
    {
      SumPermutes(terms, joined, d);
      JoinedScores(query, |query|, joined, lists, maxTermScores, rows, d);
      assert query[..|query|] == query;
    }
  }

  // ---------------------------------------------------------------- the index

  ghost function Members(all: seq<real>, isMember: nat -> bool): set<nat> {
    set d: nat | d < |all| && isMember(d)
  }

  /**
   * The reply to one query: an error exactly for a bad k, otherwise the exact top-k of the admitted
   * documents that score above zero.
   */
  ghost predicate IsReply(result: Result<(seq<real>, seq<int>)>, rows: seq<Row>, query: Row, k: int, isMember: nat -> bool) {
    && (result.Failed? <==> k < 0 || (k == 0 && query != []))
    && (result.Ok? ==>
          var all := DocScores(rows, query);
          Answers(result.value.0, result.value.1, PositiveOf(Members(all, isMember), all), all, k))
  }

  /** A heap that has settled every document drains into the exact answer. */
  lemma SettledAnswer(pq: seq<Item>, k: nat, all: seq<real>, isMember: nat -> bool)
    requires Holds(pq, k, all, Settled(all, isMember, |all|))
    ensures IsTopK(Ids(pq), PositiveOf(Members(all, isMember), all), all, k)
    ensures forall i :: 0 <= i < |pq| ==> Ids(pq)[i] < |all| && BestFirst(pq)[i].score == all[Ids(pq)[i]]
  {
    assert Settled(all, isMember, |all|) == PositiveOf(Members(all, isMember), all);
    DrainIsTopK(pq, k, all, Settled(all, isMember, |all|));
    IdsListItems(pq, k, all, Settled(all, isMember, |all|));
  }

  class InvertedIndex {
    const dimension: nat
    var invertedLists: seq<seq<Posting>>
    var maxTermScores: seq<real>
    ghost var rows: seq<Row>

    constructor (dimension: nat)
      ensures this.dimension == dimension && invertedLists == [] && maxTermScores == []
    {
      this.dimension := dimension;
      invertedLists, maxTermScores, rows := [], [], [];
    }

    ghost predicate Built()
      reads this
    {
      && |invertedLists| == dimension && BuiltFrom(invertedLists, maxTermScores, rows)
      && forall d :: 0 <= d < |rows| ==> TermsBelow(rows[d], dimension)
    }

    /** Transposes the corpus and precomputes each term's maximum; fails on a term past the dimension. */
    method Build(csr: Csr) returns (ok: bool)
      requires csr.Valid()
      modifies this
      ensures ok <==> RowsBelow(csr.Rows(), csr.Count(), dimension)
      ensures ok ==> Built() && rows == csr.Rows()
      ensures !ok ==> invertedLists == old(invertedLists) && maxTermScores == old(maxTermScores) && rows == old(rows)
    {
      var lists := BuildInvertedLists(dimension, csr);
      if lists.Failed? {
        return false;
      }
      var maxima: seq<real> := [];
      for t := 0 to dimension
        invariant |maxima| == t
        invariant forall u :: 0 <= u < t ==> maxima[u] >= 0.0
        invariant forall u, p :: 0 <= u < t && 0 <= p < |lists.value[u]| ==> lists.value[u][p].value <= maxima[u]
      {
        var maxVal := MaxValue(lists.value[t]);
        maxima := maxima + [maxVal];
      }
      invertedLists, maxTermScores, rows := lists.value, maxima, csr.Rows();
      return true;
    }

    /** The MaxScore loop: returns the drained heap. */
    method Search(query: Row, k: nat, isMember: nat -> bool, windowScores: array<real>, bitmap: array<Word>)
      returns (scores: seq<real>, ids: seq<nat>)
      requires Built() && DistinctRows(rows) && |rows| <= MAX_DOC + 1
      requires NonNegative(query) && k > 0
      requires Clean(windowScores) && bitmap.Length == BITMAP_WORDS
      modifies windowScores, bitmap
      ensures Clean(windowScores)
      ensures |scores| == |ids|
      ensures var all := DocScores(rows, query);
              && IsTopK(ids, PositiveOf(Members(all, isMember), all), all, k)
              && forall i :: 0 <= i < |ids| ==> ids[i] < |all| && scores[i] == all[ids[i]]
    {
      hide Holds, TermsBelow, DistinctTerms, PrefixMax, PostingsOf, StrictlyAscending;
      var heap := new TopKHolder(k);
      var scorers, maxScorePrefix, terms := BuildScorers(query, invertedLists, maxTermScores);
      ghost var all := DocScores(rows, query);
      ContextHolds(query, terms, maxScorePrefix, invertedLists, maxTermScores, rows);
      RunSearch(scorers, terms, maxScorePrefix, windowScores, bitmap, isMember, heap, all);
      SettledAnswer(heap.pq, k, all, isMember);
      scores, ids := heap.TopKItemsDescending();
    }

    /** One query: padded rows of length k, or the errors of a bad k. */
    method SingleQuery(query: Row, k: int, isMember: nat -> bool, windowScores: array<real>, bitmap: array<Word>)
      returns (result: Result<(seq<real>, seq<int>)>)
      requires Built() && DistinctRows(rows) && |rows| <= MAX_DOC + 1
      requires NonNegative(query)
      requires Clean(windowScores) && bitmap.Length == BITMAP_WORDS
      modifies windowScores, bitmap
      ensures Clean(windowScores)
      ensures IsReply(result, rows, query, k, isMember)
    {
      ghost var all := DocScores(rows, query);
      if |query| == 0 {
        if k < 0 {
          return Failed("cannot create a vector of negative length");
        }
        ghost var candidates := PositiveOf(Members(all, isMember), all);
        assert candidates == {};
        PaddedAnswer([], [], candidates, all, k);
        assert PadScores([], k) == seq(k, _ => -1.0);
        assert PadLabels([], k) == seq(k, _ => -1);
        return Ok((seq(k, _ => -1.0), seq(k, _ => -1)));
      }
      if k <= 0 {
        return Failed("value must be positive");
      }
      var scores, ids := Search(query, k, isMember, windowScores, bitmap);
      PaddedAnswer(scores, ids, PositiveOf(Members(all, isMember), all), all, k);
      return Ok((PadScores(scores, k), PadLabels(ids, k)));
    }

    /**
     * A batch on one thread, every query reusing the same window buffers: each row is the exact
     * answer its own query would get from fresh ones.
     */
    method SearchBatch(queries: seq<Row>, k: int, isMember: nat -> bool)
      returns (results: seq<Result<(seq<real>, seq<int>)>>)
      requires Built() && DistinctRows(rows) && |rows| <= MAX_DOC + 1
      requires forall q :: 0 <= q < |queries| ==> NonNegative(queries[q])
      ensures |results| == |queries|
      ensures forall q :: 0 <= q < |queries| ==> IsReply(results[q], rows, queries[q], k, isMember)
    {
      var windowScores := new real[SCORE_WINDOW_SIZE](_ => 0.0);
      var bitmap := new Word[BITMAP_WORDS](_ => ZERO);
      results := [];
      for q := 0 to |queries|
        invariant Clean(windowScores) && |results| == q
        invariant forall p :: 0 <= p < q ==> IsReply(results[p], rows, queries[p], k, isMember)
      {
        var result := SingleQuery(queries[q], k, isMember, windowScores, bitmap);
        results := results + [result];
      }
    }
  }
}
