/** Cutting the term space into contiguous windows of near-equal estimated memory. */
module TermWindows {
  import opened TopK

  const CLUSTER_COST_RATIO: nat := 16

  /** A slice of the term space. */
  datatype Window = Window(begin: nat, end: nat)

  /** What a posting list of `count` postings costs to fill and to cluster. */
  function LoadOf(count: nat, lam: nat): nat {
    count + CLUSTER_COST_RATIO * Min(count, lam)
  }

  function TotalLoad(counts: seq<nat>, lam: nat): nat {
    if counts == [] then 0 else TotalLoad(counts[..|counts| - 1], lam) + LoadOf(counts[|counts| - 1], lam)
  }

  /** The heaviest single term. */
  function LargestLoad(counts: seq<nat>, lam: nat): (largest: nat)
    ensures forall i :: 0 <= i < |counts| ==> LoadOf(counts[i], lam) <= largest
    ensures counts != [] ==> exists i :: 0 <= i < |counts| && LoadOf(counts[i], lam) == largest
  {
    if counts == [] then 0
    else
      var rest, last := LargestLoad(counts[..|counts| - 1], lam), LoadOf(counts[|counts| - 1], lam);
      if |counts| > 1 && rest >= last then rest else last
  }

  function CeilDiv(a: nat, b: nat): (q: nat)
    requires b > 0
    ensures a <= b * q < a + b
  {
    (a + b - 1) / b
  }

  lemma {:induction false} LoadAppend(a: seq<nat>, b: seq<nat>, lam: nat)
    ensures TotalLoad(a + b, lam) == TotalLoad(a, lam) + TotalLoad(b, lam)
  {
    if b == [] {
      assert a + b == a;
    } else {
      assert (a + b)[..|a + b| - 1] == a + b[..|b| - 1];
      LoadAppend(a, b[..|b| - 1], lam);
    }
  }

  lemma LoadSnoc(counts: seq<nat>, begin: nat, end: nat, lam: nat)
    requires begin <= end < |counts|
    ensures TotalLoad(counts[begin..end + 1], lam) == TotalLoad(counts[begin..end], lam) + LoadOf(counts[end], lam)
  {
    assert counts[begin..end + 1][..end - begin] == counts[begin..end];
  }

  lemma LoadSplit(counts: seq<nat>, begin: nat, end: nat, lam: nat)
    requires begin <= end <= |counts|
    ensures TotalLoad(counts[begin..], lam) == TotalLoad(counts[begin..end], lam) + TotalLoad(counts[end..], lam)
  {
    assert counts[begin..] == counts[begin..end] + counts[end..];
    LoadAppend(counts[begin..end], counts[end..], lam);
  }

  // ---------------------------------------------------------------- what a cut is

  /** Non-empty windows, end to end from 0 to `upTo`. */
  ghost predicate Tiles(windows: seq<Window>, upTo: nat) {
    && (forall i :: 0 <= i < |windows| ==> windows[i].begin < windows[i].end)
    && (forall i :: 0 <= i < |windows| - 1 ==> windows[i].end == windows[i + 1].begin)
    && (if windows == [] then upTo == 0 else windows[0].begin == 0 && windows[|windows| - 1].end == upTo)
  }

  function WindowLoad(counts: seq<nat>, w: Window, lam: nat): nat
    requires w.begin <= w.end <= |counts|
  {
    TotalLoad(counts[w.begin..w.end], lam)
  }

  /** No window exceeds its even share by more than one term. */
  ghost predicate Balanced(windows: seq<Window>, counts: seq<nat>, lam: nat, share: nat) {
    forall i :: 0 <= i < |windows| ==>
      windows[i].begin <= windows[i].end <= |counts|
      && WindowLoad(counts, windows[i], lam) <= share + LargestLoad(counts, lam)
  }

  /**
   * A window with `left` windows to go, itself included: the shortest run of terms that meets an even
   * share of what is left, or all terms but one for each later window.
   */
  ghost predicate MeetsTarget(counts: seq<nat>, lam: nat, w: Window, left: int) {
    && w.begin < w.end <= |counts| && left > 1 && w.end <= |counts| - (left - 1)
    && var target := CeilDiv(TotalLoad(counts[w.begin..], lam), left);
    && (w.end == |counts| - (left - 1) || TotalLoad(counts[w.begin..w.end], lam) >= target)
    && forall e :: w.begin < e < w.end ==> TotalLoad(counts[w.begin..e], lam) < target
  }

  /** Every window but the last of a cut into `batches` is as long as that asks for. */
  ghost predicate CutsGreedily(windows: seq<Window>, counts: seq<nat>, lam: nat, batches: nat) {
    forall i :: 0 <= i < |windows| && i + 1 < batches ==> MeetsTarget(counts, lam, windows[i], batches - i)
  }

  lemma CutAppend(windows: seq<Window>, begin: nat, end: nat, counts: seq<nat>, lam: nat, share: nat)
    requires Tiles(windows, begin) && begin < end <= |counts|
    requires Balanced(windows, counts, lam, share)
    requires WindowLoad(counts, Window(begin, end), lam) <= share + LargestLoad(counts, lam)
    ensures Tiles(windows + [Window(begin, end)], end)
    ensures Balanced(windows + [Window(begin, end)], counts, lam, share)
  {
  }

  lemma {:induction false} TilesInside(windows: seq<Window>, upTo: nat, i: nat)
    requires Tiles(windows, upTo) && i < |windows|
    ensures windows[i].begin < windows[i].end <= upTo
    decreases |windows| - i
  {
    if i + 1 < |windows| {
      TilesInside(windows, upTo, i + 1);
    }
  }

  // ---------------------------------------------------------------- the balance, in postings

  ghost function Postings(counts: seq<nat>): nat {
    if counts == [] then 0 else Postings(counts[..|counts| - 1]) + counts[|counts| - 1]
  }

  /** The postings that pruning leaves. */
  ghost function Survivors(counts: seq<nat>, lam: nat): nat {
    if counts == [] then 0
    else Survivors(counts[..|counts| - 1], lam) + Capped(counts[|counts| - 1], lam)
  }

  ghost function Capped(count: nat, lam: nat): nat {
    if count < lam then count else lam
  }

  lemma {:induction false} LoadInCounts(counts: seq<nat>, lam: nat)
    ensures TotalLoad(counts, lam) == Postings(counts) + 16 * Survivors(counts, lam)
  {
    if counts != [] {
      LoadInCounts(counts[..|counts| - 1], lam);
    }
  }

  /** An even share of all postings and sixteen times those that pruning leaves, rounded up. */
  ghost predicate IsEvenShare(share: nat, counts: seq<nat>, lam: nat, batches: nat) {
    var total := Postings(counts) + 16 * Survivors(counts, lam);
    total <= batches * share < total + batches
  }

  /** What is held is within the share and one term, counted alike. */
  ghost predicate HoldsShare(held: seq<nat>, counts: seq<nat>, lam: nat, share: nat) {
    exists t: nat :: t < |counts|
      && Postings(held) + 16 * Survivors(held, lam)
         <= share + counts[t] + 16 * Capped(counts[t], lam)
  }

  /** No window holds more than an even share and one term. */
  ghost predicate SharesEvenly(windows: seq<Window>, counts: seq<nat>, lam: nat, batches: nat) {
    exists share: nat :: IsEvenShare(share, counts, lam, batches)
      && forall i :: 0 <= i < |windows| ==>
           && windows[i].begin <= windows[i].end <= |counts|
           && HoldsShare(counts[windows[i].begin..windows[i].end], counts, lam, share)
  }

  lemma InCounts(windows: seq<Window>, counts: seq<nat>, lam: nat, batches: nat)
    requires batches > 0 && (counts == [] ==> windows == [])
    requires Balanced(windows, counts, lam, CeilDiv(TotalLoad(counts, lam), batches))
    ensures SharesEvenly(windows, counts, lam, batches)
  {
    hide TotalLoad, Postings, Survivors, HoldsShare;
    LoadInCounts(counts, lam);
    var share := CeilDiv(TotalLoad(counts, lam), batches);
    assert IsEvenShare(share, counts, lam, batches);
    forall i | 0 <= i < |windows|
      ensures windows[i].begin <= windows[i].end <= |counts|
      ensures HoldsShare(counts[windows[i].begin..windows[i].end], counts, lam, share)
    {
      ShareInCounts(counts[windows[i].begin..windows[i].end], counts, lam, share);
    }
  }

  lemma ShareInCounts(held: seq<nat>, counts: seq<nat>, lam: nat, share: nat)
    requires counts != [] && TotalLoad(held, lam) <= share + LargestLoad(counts, lam)
    ensures HoldsShare(held, counts, lam, share)
  {
    hide TotalLoad, LargestLoad, Postings, Survivors;
    LoadInCounts(held, lam);
    var t: nat :| t < |counts| && LoadOf(counts[t], lam) == LargestLoad(counts, lam);
  }

  // ---------------------------------------------------------------- the arithmetic of one step

  lemma MultiplyMonotone(n: nat, a: nat, b: nat)
    requires a <= b
    ensures n * a <= n * b
  {
  }

  lemma CeilBounds(a: nat, b: nat)
    requires b > 0
    ensures a <= b * CeilDiv(a, b)
    ensures forall c: nat :: a <= b * c ==> CeilDiv(a, b) <= c
  {
    var q := CeilDiv(a, b);
    assert a + b - 1 == b * q + (a + b - 1) % b;
    forall c: nat | a <= b * c
      ensures q <= c
    {
      assert b * (c + 1) == b * c + b;
      if q > c {
        MultiplyMonotone(b, c + 1, q);
      }
    }
  }

  /** Meeting the target leaves the windows to come no more than their share each. */
  lemma ShareLeft(remaining: nat, load: nat, left: nat, share: nat)
    requires left > 1 && remaining <= left * share && CeilDiv(remaining, left) <= load <= remaining
    ensures remaining - load <= (left - 1) * share
    ensures CeilDiv(remaining, left) <= share
  {
    var target := CeilDiv(remaining, left);
    CeilBounds(remaining, left);
    assert left * target == (left - 1) * target + target;
    MultiplyMonotone(left - 1, target, share);
  }

  // ---------------------------------------------------------------- the greedy cut

  /** Takes terms until the target is met, leaving one for every window still to come. */
  method TakeWindow(counts: seq<nat>, lam: nat, begin: nat, maxEnd: nat, target: nat) returns (end: nat, load: nat)
    requires begin < maxEnd <= |counts|
    ensures begin < end <= maxEnd && load == TotalLoad(counts[begin..end], lam)
    ensures end == maxEnd || load >= target
    ensures forall e :: begin < e < end ==> TotalLoad(counts[begin..e], lam) < target
    ensures load <= target + LargestLoad(counts, lam)
  {
    hide LoadOf;
    end, load := begin, 0;
    assert counts[begin..begin] == [];
    while end < maxEnd && (end == begin || load < target)
      invariant begin <= end <= maxEnd && load == TotalLoad(counts[begin..end], lam)
      invariant forall e :: begin < e < end ==> TotalLoad(counts[begin..e], lam) < target
      invariant load <= target + LargestLoad(counts, lam)
    {
      LoadSnoc(counts, begin, end, lam);
      load := load + LoadOf(counts[end], lam);
      end := end + 1;
    }
  }

  /** A window that is neither the last nor empty. */
  method NextWindow(counts: seq<nat>, lam: nat, begin: nat, remaining: nat, windowsLeft: nat, ghost share: nat)
    returns (end: nat, load: nat)
    requires begin < |counts| && windowsLeft > 1
    requires remaining == TotalLoad(counts[begin..], lam) && Even(windowsLeft, |counts| - begin, remaining, share)
    ensures begin < end < |counts| && load <= remaining
    ensures remaining - load == TotalLoad(counts[end..], lam)
    ensures WindowLoad(counts, Window(begin, end), lam) <= share + LargestLoad(counts, lam)
    ensures Even(windowsLeft - 1, |counts| - end, remaining - load, share)
    ensures MeetsTarget(counts, lam, Window(begin, end), windowsLeft)
  {
    var target := CeilDiv(remaining, windowsLeft);
    var maxEnd: nat := |counts| - (windowsLeft - 1);
    end, load := TakeWindow(counts, lam, begin, maxEnd, target);
    LoadSplit(counts, begin, end, lam);
    StepEven(counts, lam, begin, end, load, remaining, windowsLeft, share);
  }

  /**
   * Exactly `batches` windows (one when there are none), and none heavier than its even share plus
   * one term.
   */
  method MakeWindows(counts: seq<nat>, lam: nat, batches: nat) returns (windows: seq<Window>)
    requires batches <= |counts|
    ensures counts == [] ==> windows == []
    ensures counts != [] ==> |windows| == if batches == 0 then 1 else batches
    ensures Tiles(windows, |counts|)
    ensures batches > 0 ==> Balanced(windows, counts, lam, CeilDiv(TotalLoad(counts, lam), batches))
    ensures batches > 0 ==> SharesEvenly(windows, counts, lam, batches)
    ensures CutsGreedily(windows, counts, lam, batches)
  {
    hide Cutting, CeilDiv, TotalLoad, Tiles, Balanced, Even, WindowLoad, LargestLoad, MeetsTarget, CutsGreedily, SharesEvenly;
    var dim := |counts|;
    var remaining := SumLoads(counts, lam);
    ghost var n: nat := if batches == 0 then 1 else batches;
    ghost var share := CeilDiv(remaining, n);
    CutStart(remaining, counts, lam, n);
    NoneGreedy([], counts, lam, batches);
    windows := [];
    var begin: nat := 0;
    while begin < dim
      invariant begin <= dim && Cutting(windows, begin, remaining, counts, lam, share, n)
      invariant CutsGreedily(windows, counts, lam, batches)
    {
      CuttingRange(windows, begin, remaining, counts, lam, share, n);
      var windowsLeft: nat := batches - |windows|;
      if windowsLeft <= 1 {
        CutLast(windows, begin, remaining, counts, lam, share, n);
        GreedyAppend(windows, Window(begin, dim), counts, lam, batches);
        windows := windows + [Window(begin, dim)];
        InCounts(windows, counts, lam, n);
        return;
      }
      var end, load := NextWindow(counts, lam, begin, remaining, windowsLeft, share);
      CutNext(windows, begin, remaining, counts, lam, share, n, end, load);
      GreedyAppend(windows, Window(begin, end), counts, lam, batches);
      windows := windows + [Window(begin, end)];
      remaining := remaining - load;
      begin := end;
    }
    CuttingRange(windows, begin, remaining, counts, lam, share, n);
    InCounts(windows, counts, lam, n);
  }

  lemma NoneGreedy(none: seq<Window>, counts: seq<nat>, lam: nat, batches: nat)
    requires none == []
    ensures CutsGreedily(none, counts, lam, batches)
  {
  }

  lemma GreedyAppend(windows: seq<Window>, w: Window, counts: seq<nat>, lam: nat, batches: nat)
    requires CutsGreedily(windows, counts, lam, batches)
    requires |windows| + 1 < batches ==> MeetsTarget(counts, lam, w, batches - |windows|)
    ensures CutsGreedily(windows + [w], counts, lam, batches)
  {
    hide MeetsTarget;
  }

  /** The loop's state: balanced windows up to `begin`, and an even rest. */
  ghost predicate Cutting(windows: seq<Window>, begin: nat, remaining: nat, counts: seq<nat>, lam: nat, share: nat, n: nat) {
    && begin <= |counts| && Tiles(windows, begin) && Balanced(windows, counts, lam, share)
    && remaining == TotalLoad(counts[begin..], lam)
    && (counts == [] ==> windows == [])
    && (counts != [] ==> begin < |counts| && |windows| < n && Even(n - |windows|, |counts| - begin, remaining, share))
  }

  lemma CutStart(total: nat, counts: seq<nat>, lam: nat, n: nat)
    requires total == TotalLoad(counts, lam) && n > 0 && (counts != [] ==> n <= |counts|)
    ensures Cutting([], 0, total, counts, lam, CeilDiv(total, n), n)
  {
    assert counts[0..] == counts;
    if counts != [] {
      FirstEven(total, n, |counts|);
    }
  }

  lemma CuttingRange(windows: seq<Window>, begin: nat, remaining: nat, counts: seq<nat>, lam: nat, share: nat, n: nat)
    requires Cutting(windows, begin, remaining, counts, lam, share, n)
    ensures begin <= |counts| && Tiles(windows, begin) && Balanced(windows, counts, lam, share)
    ensures remaining == TotalLoad(counts[begin..], lam)
    ensures counts == [] ==> windows == []
    ensures counts != [] ==> begin < |counts| && |windows| < n && n - |windows| <= |counts| - begin
    ensures counts != [] ==> Even(n - |windows|, |counts| - begin, remaining, share)
  {
  }

  lemma CutNext(windows: seq<Window>, begin: nat, remaining: nat, counts: seq<nat>, lam: nat, share: nat, n: nat,
                end: nat, load: nat)
    requires Cutting(windows, begin, remaining, counts, lam, share, n)
    requires begin < end < |counts| && load <= remaining && remaining - load == TotalLoad(counts[end..], lam)
    requires WindowLoad(counts, Window(begin, end), lam) <= share + LargestLoad(counts, lam)
    requires n - |windows| > 1 && Even(n - |windows| - 1, |counts| - end, remaining - load, share)
    ensures Cutting(windows + [Window(begin, end)], end, remaining - load, counts, lam, share, n)
  {
    hide Even, WindowLoad, TotalLoad;
    CutAppend(windows, begin, end, counts, lam, share);
  }

  lemma CutLast(windows: seq<Window>, begin: nat, remaining: nat, counts: seq<nat>, lam: nat, share: nat, n: nat)
    requires Cutting(windows, begin, remaining, counts, lam, share, n)
    requires begin < |counts| && n - |windows| == 1
    ensures Tiles(windows + [Window(begin, |counts|)], |counts|)
    ensures Balanced(windows + [Window(begin, |counts|)], counts, lam, share)
  {
    LastWindow(counts, lam, begin, remaining, share);
    CutAppend(windows, begin, |counts|, counts, lam, share);
  }

  /**
   * The windows still to come can be non-empty, and either an even share holds the rest or each
   * takes exactly one term.
   */
  ghost predicate Even(left: nat, terms: nat, remaining: nat, share: nat) {
    1 <= left <= terms && (left == terms || remaining <= left * share)
  }

  lemma FirstEven(total: nat, batches: nat, terms: nat)
    requires 1 <= batches <= terms
    ensures Even(batches, terms, total, CeilDiv(total, batches))
  {
    CeilBounds(total, batches);
  }

  lemma OneTerm(counts: seq<nat>, lam: nat, begin: nat)
    requires begin < |counts|
    ensures TotalLoad(counts[begin..begin + 1], lam) <= LargestLoad(counts, lam)
  {
    assert counts[begin..begin] == [];
    LoadSnoc(counts, begin, begin, lam);
  }

  lemma LastWindow(counts: seq<nat>, lam: nat, begin: nat, remaining: nat, share: nat)
    requires begin < |counts| && remaining == TotalLoad(counts[begin..], lam)
    requires Even(1, |counts| - begin, remaining, share)
    ensures WindowLoad(counts, Window(begin, |counts|), lam) <= share + LargestLoad(counts, lam)
  {
    assert counts[begin..|counts|] == counts[begin..];
    if |counts| - begin == 1 {
      OneTerm(counts, lam, begin);
    }
  }

  /** One step keeps the window within its share plus a term, and the rest even. */
  lemma StepEven(counts: seq<nat>, lam: nat, begin: nat, end: nat, load: nat, remaining: nat, left: nat, share: nat)
    requires begin < end <= |counts| && left > 1 && Even(left, |counts| - begin, remaining, share)
    requires load == TotalLoad(counts[begin..end], lam) <= remaining
    requires end <= |counts| - (left - 1)
    requires end == |counts| - (left - 1) || load >= CeilDiv(remaining, left)
    requires load <= CeilDiv(remaining, left) + LargestLoad(counts, lam)
    ensures WindowLoad(counts, Window(begin, end), lam) <= share + LargestLoad(counts, lam)
    ensures Even(left - 1, |counts| - end, remaining - load, share)
  {
    hide CeilDiv, TotalLoad, LargestLoad;
    if left == |counts| - begin {
      OneTerm(counts, lam, begin);
    } else {
      CeilBounds(remaining, left);
      if load >= CeilDiv(remaining, left) {
        ShareLeft(remaining, load, left, share);
      }
    }
  }

  method SumLoads(counts: seq<nat>, lam: nat) returns (total: nat)
    ensures total == TotalLoad(counts, lam)
  {
    total := 0;
    for i := 0 to |counts|
      invariant total == TotalLoad(counts[..i], lam)
    {
      assert counts[..i + 1][..i] == counts[..i];
      total := total + LoadOf(counts[i], lam);
    }
    assert counts[..|counts|] == counts;
  }
}
