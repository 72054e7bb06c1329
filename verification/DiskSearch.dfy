/** The disk-resident search: score the globally best blocks exactly, from memory or from the mapping. */
module DiskSearch {
  import opened SparseDot
  import opened SparseVectors
  import opened TopK
  import opened Ranker
  import opened Distance
  import opened InvertedLists
  import opened KMeans
  import opened ClusteredLists
  import opened BatchedBuild
  import opened InlineReader
  import opened InlineRoundTrip
  import opened DocDirectory
  import Clusters = InvertedListClusters
  import InvertedIndex
  import SeismicIndex
  import Bytes
  import InlineFormat
  import Sorting

  datatype BlockCandidate = BlockCandidate(score: real, pl: nat, cid: nat)

  // ---------------------------------------------------------------- collecting and selecting blocks

  /** A list's blocks with their summary scores. */
  ghost function ListCandidates(term: nat, clusters: seq<Cluster>, query: Row): (r: seq<BlockCandidate>)
    ensures |r| == |clusters|
    ensures forall c :: 0 <= c < |r| ==> r[c] == BlockCandidate(Dot(clusters[c].summary, query), term, c)
  {
    seq(|clusters|, c requires 0 <= c < |clusters| => BlockCandidate(Dot(clusters[c].summary, query), term, c))
  }

  /** Every block of the cut terms' lists. */
  ghost function CandidatesOf(lists: seq<seq<Cluster>>, cuts: seq<nat>, query: Row): seq<BlockCandidate> {
    if cuts == [] then []
    else
      var term := cuts[|cuts| - 1];
      CandidatesOf(lists, cuts[..|cuts| - 1], query)
      + (if term < |lists| then ListCandidates(term, lists[term], query) else [])
  }

  ghost predicate NamesBlock(x: BlockCandidate, lists: seq<seq<Cluster>>, cuts: seq<nat>, query: Row) {
    && x.pl in cuts && x.pl < |lists| && x.cid < |lists[x.pl]| && x.score == Dot(lists[x.pl][x.cid].summary, query)
  }

  /** The candidates are exactly the cut terms' blocks, each scored by its own summary. */
  lemma {:induction false} CandidateOrigin(lists: seq<seq<Cluster>>, cuts: seq<nat>, query: Row, x: BlockCandidate)
    ensures x in CandidatesOf(lists, cuts, query) <==> NamesBlock(x, lists, cuts, query)
  {
    if cuts != [] {
      var init, term := cuts[..|cuts| - 1], cuts[|cuts| - 1];
      assert cuts == init + [term];
      CandidateOrigin(lists, init, query, x);
      if term < |lists| && x.pl == term && x.cid < |lists[term]| {
        assert ListCandidates(term, lists[term], query)[x.cid].cid == x.cid;
      }
    }
  }

  lemma NoCuts(lists: seq<seq<Cluster>>, cuts: seq<nat>, query: Row)
    requires cuts == []
    ensures CandidatesOf(lists, cuts, query) == []
  {
  }

  lemma NextCut(lists: seq<seq<Cluster>>, cuts: seq<nat>, i: nat, query: Row)
    requires i < |cuts|
    ensures CandidatesOf(lists, cuts[..i + 1], query)
            == CandidatesOf(lists, cuts[..i], query)
               + (if cuts[i] < |lists| then ListCandidates(cuts[i], lists[cuts[i]], query) else [])
  {
    assert cuts[..i + 1][..i] == cuts[..i];
  }

  lemma NoClusters(list: Clusters.InvertedListClusters, term: nat, query: Row)
    requires list.Valid() && list.nClusters == 0
    ensures ListCandidates(term, ClustersOf(list), query) == []
  {
  }

  method CollectCandidates(lists: seq<Clusters.InvertedListClusters>, cuts: seq<nat>, query: Row)
    returns (candidates: seq<BlockCandidate>)
    requires forall t :: 0 <= t < |lists| ==> lists[t].Valid()
    ensures candidates == CandidatesOf(ListsOf(lists), cuts, query)
  {
    hide CandidatesOf, ListCandidates, ClustersOf;
    candidates := [];
    ghost var views := ListsOf(lists);
    NoCuts(views, cuts[..0], query);
    for i := 0 to |cuts|
      invariant candidates == CandidatesOf(views, cuts[..i], query)
    {
      NextCut(views, cuts, i, query);
      if cuts[i] < |lists| && lists[cuts[i]].nClusters == 0 {
        NoClusters(lists[cuts[i]], cuts[i], query);
      }
      if cuts[i] < |lists| && lists[cuts[i]].nClusters != 0 {
        var more := ScoreBlocks(lists[cuts[i]], cuts[i], query);
        candidates := candidates + more;
      }
    }
    assert cuts[..|cuts|] == cuts;
  }

  method ScoreBlocks(list: Clusters.InvertedListClusters, term: nat, query: Row) returns (r: seq<BlockCandidate>)
    requires list.Valid()
    ensures r == ListCandidates(term, ClustersOf(list), query)
  {
    var scores := list.ScoreSummariesTransposed(query);
    r := [];
    for c := 0 to list.nClusters
      invariant |r| == c
      invariant forall j :: 0 <= j < c ==> r[j] == BlockCandidate(scores[j], term, j)
    {
      r := r + [BlockCandidate(scores[c], term, c)];
    }
  }

  /** `chosen` are budget of the candidates, and none of the rest outscores any of them. */
  ghost predicate IsSelection(chosen: seq<BlockCandidate>, rest: seq<BlockCandidate>, candidates: seq<BlockCandidate>, budget: nat) {
    && multiset(chosen) + multiset(rest) == multiset(candidates)
    && |chosen| == Min(budget, |candidates|)
    && (budget >= |candidates| ==> rest == [] && chosen == candidates)
    && forall x, y :: x in chosen && y in rest ==> y.score <= x.score
  }

  /** What candidates are ranked by: the best summary comes first. */
  function BySummary(x: BlockCandidate): real {
    -x.score
  }

  /** The blocks a budget selects, and those it leaves: functions of the candidates and the budget. */
  function Selected(candidates: seq<BlockCandidate>, budget: nat): seq<BlockCandidate> {
    if budget >= |candidates| then candidates else Sorting.Sorted(candidates, BySummary)[..budget]
  }

  function Unselected(candidates: seq<BlockCandidate>, budget: nat): seq<BlockCandidate> {
    if budget >= |candidates| then [] else Sorting.Sorted(candidates, BySummary)[budget..]
  }

  /** The best blocks by summary score; a negative budget is a huge one. */
  method SelectBlocks(candidates: seq<BlockCandidate>, budget: nat) returns (chosen: seq<BlockCandidate>)
    ensures chosen == Selected(candidates, budget)
    ensures IsSelection(chosen, Unselected(candidates, budget), candidates, budget)
  {
    if budget >= |candidates| {
      assert multiset(candidates) + multiset([]) == multiset(candidates);
      return candidates;
    }
    var order := Sorting.SortBy(candidates, BySummary);
    hide Sorting.Sorted;
    chosen := order[..budget];
    ghost var rest := order[budget..];
    assert order == chosen + rest;
    forall x, y | x in chosen && y in rest
      ensures y.score <= x.score
    {
      var i :| 0 <= i < budget && order[i] == x;
      var j :| 0 <= j < |rest| && rest[j] == y;
      assert BySummary(order[i]) <= BySummary(order[budget + j]);
    }
  }

  // ---------------------------------------------------------------- scoring a block

  /** Where a block's vectors come from: the in-memory corpus, or the mapped forward index. */
  datatype Forward = InMemory(csr: Csr) | OnDisk(mapped: Mapped, decode: seq<Bytes.byte> -> real)

  /** The documents of every block, whichever place serves them. */
  ghost predicate Serves(fwd: Forward, lists: seq<Clusters.InvertedListClusters>, rows: seq<Row>, blocks: seq<seq<seq<nat>>>,
                         src: InlineFormat.Source)
    reads lists
  {
    && |blocks| == |lists|
    && (forall pl :: 0 <= pl < |lists| ==> lists[pl].Valid() && |blocks[pl]| == lists[pl].nClusters)
    && (forall pl, c :: 0 <= pl < |blocks| && 0 <= c < |blocks[pl]| ==> InRange(blocks[pl][c], |rows|))
    && match fwd
       case InMemory(csr) =>
         csr.Valid() && csr.Rows() == rows
         && forall pl, c :: 0 <= pl < |blocks| && 0 <= c < |blocks[pl]| ==> lists[pl].GetDocs(c) == blocks[pl][c]
       case OnDisk(m, decode) =>
         MappedFrom(m, src) && rows == DecodedRows(src.rows, decode) && blocks == src.lists
         && forall pl :: 0 <= pl < |blocks| ==> |blocks[pl]| <= UINT32_RANGE
  }

  /** Scores one document unless it was visited or is not admitted. */
  method ScoreDoc(docId: nat, row: Row, dense: array<real>, ghost query: Row, isMember: nat -> bool, heap: TopKHolder,
                  visited: set<nat>, ghost all: seq<real>) returns (nowVisited: set<nat>)
    requires TermsBelow(row, dense.Length) && Scattered(dense[..], query)
    requires docId < |all| && all[docId] == Dot(row, query)
    requires heap.Valid() && Holds(heap.pq, heap.k, all, SeismicIndex.Admitted(visited, isMember))
    modifies heap
    ensures heap.Valid() && Holds(heap.pq, heap.k, all, SeismicIndex.Admitted(nowVisited, isMember))
    ensures nowVisited == visited + {docId}
  {
    hide Holds, TermsBelow, Scattered;
    ghost var before := SeismicIndex.Admitted(visited, isMember);
    nowVisited := visited + {docId};
    if docId in visited {
      assert nowVisited == visited;
      return;
    }
    if !isMember(docId) {
      assert SeismicIndex.Admitted(nowVisited, isMember) == before;
      return;
    }
    assert SeismicIndex.Admitted(nowVisited, isMember) == before + {docId};
    OfferSettles(heap.pq, heap.k, all, before, docId);
    var score := DotProductDense(row, dense, query);
    heap.Add(score, docId);
  }

  ghost function DocSet(docs: seq<nat>): set<nat> {
    set d | d in docs
  }

  /** From the in-memory corpus. */
  method ScoreBlockInMemory(csr: Csr, docs: seq<nat>, dense: array<real>, ghost query: Row, isMember: nat -> bool,
                            heap: TopKHolder, visited: set<nat>, ghost all: seq<real>) returns (nowVisited: set<nat>)
    requires csr.Valid() && InRange(docs, csr.Count()) && all == InvertedIndex.DocScores(csr.Rows(), query)
    requires forall d :: 0 <= d < csr.Count() ==> TermsBelow(csr.Row(d), dense.Length)
    requires Scattered(dense[..], query)
    requires heap.Valid() && Holds(heap.pq, heap.k, all, SeismicIndex.Admitted(visited, isMember))
    modifies heap
    ensures heap.Valid() && Holds(heap.pq, heap.k, all, SeismicIndex.Admitted(nowVisited, isMember))
    ensures nowVisited == visited + DocSet(docs)
  {
    hide Holds, TermsBelow, Scattered;
    nowVisited := visited;
    for i := 0 to |docs|
      invariant heap.Valid() && Holds(heap.pq, heap.k, all, SeismicIndex.Admitted(nowVisited, isMember))
      invariant nowVisited == visited + DocSet(docs[..i])
    {
      nowVisited := ScoreDoc(docs[i], csr.Row(docs[i]), dense, query, isMember, heap, nowVisited, all);
      assert docs[..i + 1] == docs[..i] + [docs[i]];
    }
    assert docs[..|docs|] == docs;
  }

  /** From the mapped forward index: the view shows the same documents with the same rows. */
  method ScoreBlockOnDisk(m: Mapped, ghost src: InlineFormat.Source, pl: nat, cid: nat, decode: seq<Bytes.byte> -> real,
                          dense: array<real>, ghost query: Row, isMember: nat -> bool, heap: TopKHolder, visited: set<nat>,
                          ghost all: seq<real>) returns (nowVisited: set<nat>)
    requires MappedFrom(m, src) && pl < |src.lists| && cid < |src.lists[pl]| <= UINT32_RANGE
    requires all == InvertedIndex.DocScores(DecodedRows(src.rows, decode), query)
    requires forall d :: 0 <= d < |src.rows| ==> TermsBelow(Decoded(src.rows[d], decode), dense.Length)
    requires Scattered(dense[..], query)
    requires heap.Valid() && Holds(heap.pq, heap.k, all, SeismicIndex.Admitted(visited, isMember))
    modifies heap
    ensures heap.Valid() && Holds(heap.pq, heap.k, all, SeismicIndex.Admitted(nowVisited, isMember))
    ensures nowVisited == visited + DocSet(src.lists[pl][cid])
  {
    hide Holds, TermsBelow, Scattered, MappedFrom, Shows, ViewSafe, BlockOk, ViewOf, LoadedFrom, IsAbsent;
    nowVisited := visited;
    MappedIsLoaded(m, src);
    BlockShown(m, src, pl, cid);
    ghost var docs := src.lists[pl][cid];
    var view, absent := Block(m.section, m.address, m.loaded, pl, cid);
    if absent {
      return;
    }
    ShowsCount(m.section, m.address, view.value, m.loaded.elementSize, src.rows, docs);
    for i := 0 to view.value.nDocs
      invariant i <= |docs| == view.value.nDocs
      invariant heap.Valid() && Holds(heap.pq, heap.k, all, SeismicIndex.Admitted(nowVisited, isMember))
      invariant nowVisited == visited + DocSet(docs[..i])
    {
      ShowsSlot(m.section, m.address, view.value, m.loaded.elementSize, src.rows, docs, i);
      var v := DocVector(m.section, m.address, view.value, m.loaded.elementSize, i);
      nowVisited := ScoreDoc(DocIdAt(m.section, view.value, i), Decoded(v, decode), dense, query, isMember, heap, nowVisited, all);
      assert docs[..i + 1] == docs[..i] + [docs[i]];
    }
    assert docs[..|docs|] == docs;
  }

  lemma MappedIsLoaded(m: Mapped, src: InlineFormat.Source)
    requires MappedFrom(m, src)
    ensures LoadedFrom(m.loaded, m.section, m.address)
  {
  }

  // ---------------------------------------------------------------- the budgeted query

  /** The documents of the chosen blocks. */
  ghost function ChosenDocs(chosen: seq<BlockCandidate>, blocks: seq<seq<seq<nat>>>): set<nat> {
    if chosen == [] then {}
    else
      var x := chosen[|chosen| - 1];
      ChosenDocs(chosen[..|chosen| - 1], blocks)
      + (if x.pl < |blocks| && x.cid < |blocks[x.pl]| then DocSet(blocks[x.pl][x.cid]) else {})
  }

  /** A set document of the chosen blocks belongs to one of them. */
  lemma {:induction false} ChosenOrigin(chosen: seq<BlockCandidate>, blocks: seq<seq<seq<nat>>>, d: nat)
    ensures d in ChosenDocs(chosen, blocks) <==>
            exists x :: x in chosen && x.pl < |blocks| && x.cid < |blocks[x.pl]| && d in blocks[x.pl][x.cid]
  {
    if chosen != [] {
      var init, last := chosen[..|chosen| - 1], chosen[|chosen| - 1];
      assert chosen == init + [last];
      ChosenOrigin(init, blocks, d);
    }
  }

  ghost predicate BlocksExist(chosen: seq<BlockCandidate>, blocks: seq<seq<seq<nat>>>) {
    forall i :: 0 <= i < |chosen| ==> chosen[i].pl < |blocks| && chosen[i].cid < |blocks[chosen[i].pl]|
  }

  /** Scores one chosen block from wherever the vectors live. */
  method ScoreBlock(fwd: Forward, lists: seq<Clusters.InvertedListClusters>, x: BlockCandidate, dense: array<real>,
                    isMember: nat -> bool, heap: TopKHolder, visited: set<nat>, ghost query: Row, ghost rows: seq<Row>,
                    ghost blocks: seq<seq<seq<nat>>>, ghost src: InlineFormat.Source) returns (nowVisited: set<nat>)
    requires Serves(fwd, lists, rows, blocks, src) && x.pl < |blocks| && x.cid < |blocks[x.pl]|
    requires forall d :: 0 <= d < |rows| ==> TermsBelow(rows[d], dense.Length)
    requires Scattered(dense[..], query)
    requires heap.Valid()
    requires Holds(heap.pq, heap.k, InvertedIndex.DocScores(rows, query), SeismicIndex.Admitted(visited, isMember))
    modifies heap
    ensures heap.Valid()
    ensures Holds(heap.pq, heap.k, InvertedIndex.DocScores(rows, query), SeismicIndex.Admitted(nowVisited, isMember))
    ensures nowVisited == visited + DocSet(blocks[x.pl][x.cid])
  {
    hide Holds, TermsBelow, Scattered, MappedFrom;
    ghost var all := InvertedIndex.DocScores(rows, query);
    match fwd {
      case InMemory(csr) =>
        nowVisited := ScoreBlockInMemory(csr, lists[x.pl].GetDocs(x.cid), dense, query, isMember, heap, visited, all);
      case OnDisk(m, decode) =>
        nowVisited := ScoreBlockOnDisk(m, src, x.pl, x.cid, decode, dense, query, isMember, heap, visited, all);
    }
  }

  method ScoreChosen(fwd: Forward, lists: seq<Clusters.InvertedListClusters>, chosen: seq<BlockCandidate>, dense: array<real>,
                     isMember: nat -> bool, heap: TopKHolder, ghost query: Row, ghost rows: seq<Row>,
                     ghost blocks: seq<seq<seq<nat>>>, ghost src: InlineFormat.Source)
    requires Serves(fwd, lists, rows, blocks, src) && BlocksExist(chosen, blocks)
    requires forall d :: 0 <= d < |rows| ==> TermsBelow(rows[d], dense.Length)
    requires Scattered(dense[..], query)
    requires heap.Valid() && heap.pq == []
    modifies heap
    ensures heap.Valid()
    ensures Holds(heap.pq, heap.k, InvertedIndex.DocScores(rows, query),
                  SeismicIndex.Admitted(ChosenDocs(chosen, blocks), isMember))
  {
    hide Serves, Holds, TermsBelow, Scattered, ChosenDocs, DocSet, BlocksExist;
    var visited: set<nat> := {};
    NothingChosen(chosen[..0], blocks, heap.k, InvertedIndex.DocScores(rows, query), isMember);
    for i := 0 to |chosen|
      invariant heap.Valid() && visited == ChosenDocs(chosen[..i], blocks)
      invariant Holds(heap.pq, heap.k, InvertedIndex.DocScores(rows, query), SeismicIndex.Admitted(visited, isMember))
    {
      ChosenStep(chosen, i, blocks);
      visited := ScoreBlock(fwd, lists, chosen[i], dense, isMember, heap, visited, query, rows, blocks, src);
    }
    assert chosen[..|chosen|] == chosen;
  }

  lemma NothingChosen(none: seq<BlockCandidate>, blocks: seq<seq<seq<nat>>>, k: nat, all: seq<real>, isMember: nat -> bool)
    requires none == []
    ensures ChosenDocs(none, blocks) == {} && Holds([], k, all, SeismicIndex.Admitted({}, isMember))
  {
    assert SeismicIndex.Admitted({}, isMember) == {};
  }

  lemma ChosenStep(chosen: seq<BlockCandidate>, i: nat, blocks: seq<seq<seq<nat>>>)
    requires BlocksExist(chosen, blocks) && i < |chosen|
    ensures chosen[i].pl < |blocks| && chosen[i].cid < |blocks[chosen[i].pl]|
    ensures ChosenDocs(chosen[..i + 1], blocks) == ChosenDocs(chosen[..i], blocks) + DocSet(blocks[chosen[i].pl][chosen[i].cid])
  {
    assert chosen[..i + 1][..i] == chosen[..i];
  }

  /** Scores and ids that are an exact top-k of the admitted documents of the chosen blocks. */
  ghost predicate IsBudgetReply(scores: seq<real>, ids: seq<nat>, chosen: seq<BlockCandidate>, blocks: seq<seq<seq<nat>>>,
                                rows: seq<Row>, query: Row, isMember: nat -> bool, k: nat) {
    var all := InvertedIndex.DocScores(rows, query);
    && IsTopK(ids, SeismicIndex.Admitted(ChosenDocs(chosen, blocks), isMember), all, k)
    && |scores| == |ids| && forall i :: 0 <= i < |ids| ==> ids[i] < |all| && scores[i] == all[ids[i]]
  }

  /** What a run answers: an exact top-k of the blocks its budget selects among the lists' candidates, if k is positive. */
  ghost predicate IsBudgetRun(result: Result<(seq<real>, seq<nat>)>, lists: seq<seq<Cluster>>, cuts: seq<nat>, query: Row, kPrime: int,
                              blocks: seq<seq<seq<nat>>>, rows: seq<Row>, isMember: nat -> bool, k: int)
    requires kPrime + SIZE_T_RANGE >= 0
  {
    && (result.Ok? <==> k > 0)
    && (result.Ok? ==> IsBudgetReply(result.value.0, result.value.1, Selected(CandidatesOf(lists, cuts, query), AsSize(kPrime)),
                                     blocks, rows, LastWeights(query), isMember, k))
  }

  /**
   * Collect, select within the budget, score exactly. The answer is the exact top-k of the selected
   * blocks' admitted documents, no other candidate block outscores a selected one, and the dense
   * buffer is all zero again on exit.
   */
  method BlockBudgetQuery(fwd: Forward, lists: seq<Clusters.InvertedListClusters>, dense: array<real>, query: Row, cuts: seq<nat>,
                          k: int, kPrime: int, isMember: nat -> bool, ghost rows: seq<Row>, ghost blocks: seq<seq<seq<nat>>>,
                          ghost src: InlineFormat.Source)
    returns (result: Result<(seq<real>, seq<nat>)>)
    requires Serves(fwd, lists, rows, blocks, src) && kPrime + SIZE_T_RANGE >= 0
    requires forall d :: 0 <= d < |rows| ==> TermsBelow(rows[d], dense.Length)
    requires AllZero(dense[..]) && TermsBelow(query, dense.Length)
    modifies dense
    ensures IsBudgetRun(result, old(ListsOf(lists)), cuts, query, kPrime, blocks, rows, isMember, k)
    ensures var candidates := CandidatesOf(old(ListsOf(lists)), cuts, query);
            IsSelection(Selected(candidates, AsSize(kPrime)), Unselected(candidates, AsSize(kPrime)), candidates, AsSize(kPrime))
    ensures kPrime >= 0 ==>
              var candidates := CandidatesOf(old(ListsOf(lists)), cuts, query);
              IsSelection(Selected(candidates, AsSize(kPrime)), Unselected(candidates, AsSize(kPrime)), candidates, kPrime)
    ensures result.Ok? && Covers(kPrime, |CandidatesOf(old(ListsOf(lists)), cuts, query)|) ==>
              IsTopK(result.value.1, CutDocs(blocks, cuts, isMember, |rows|),
                     InvertedIndex.DocScores(rows, LastWeights(query)), k)
    ensures result.Ok? ==> AllZero(dense[..])
  {
    hide Holds, TermsBelow, Scattered, Serves, AllZero, IsSelection, BlocksExist, ChosenDocs, CandidatesOf, Selected, Covers, CutDocs,
      Unselected, ClustersOf, IsTopK, SeismicIndex.Admitted, Clusters.InvertedListClusters.Valid;
    ServedLists(fwd, lists, rows, blocks, src);
    ghost var views := ListsOf(lists);
    Scatter(dense, query);
    var candidates := CollectCandidates(lists, cuts, query);
    var chosen := SelectBlocks(candidates, AsSize(kPrime));
    if k <= 0 {
      return Failed("value must be positive");
    }
    SelectionExists(chosen, Unselected(candidates, AsSize(kPrime)), candidates, AsSize(kPrime), views, cuts, query, blocks);
    var holder := new TopKHolder(k);
    ghost var weights := LastWeights(query);
    ScoreChosen(fwd, lists, chosen, dense, isMember, holder, weights, rows, blocks, src);
    ClearScatter(dense, query);
    ghost var pq := holder.pq;
    BudgetReply(pq, chosen, blocks, rows, weights, isMember, k);
    var scores, ids := holder.TopKItemsDescending();
    assert ids == Ids(pq);
    result := Ok((scores, ids));
    if Covers(kPrime, |candidates|) {
      CoveredRun(result, views, cuts, query, kPrime, blocks, rows, isMember, k);
    }
  }

  lemma ServedLists(fwd: Forward, lists: seq<Clusters.InvertedListClusters>, rows: seq<Row>, blocks: seq<seq<seq<nat>>>,
                    src: InlineFormat.Source)
    requires Serves(fwd, lists, rows, blocks, src)
    ensures |blocks| == |lists|
    ensures forall pl :: 0 <= pl < |lists| ==> lists[pl].Valid() && |blocks[pl]| == |ClustersOf(lists[pl])|
    ensures forall pl, c :: 0 <= pl < |blocks| && 0 <= c < |blocks[pl]| ==> InRange(blocks[pl][c], |rows|)
  {
    hide MappedFrom;
  }

  lemma SelectionExists(chosen: seq<BlockCandidate>, rest: seq<BlockCandidate>, candidates: seq<BlockCandidate>, budget: nat,
                        lists: seq<seq<Cluster>>, cuts: seq<nat>, query: Row, blocks: seq<seq<seq<nat>>>)
    requires IsSelection(chosen, rest, candidates, budget) && candidates == CandidatesOf(lists, cuts, query)
    requires |blocks| == |lists| && forall pl :: 0 <= pl < |lists| ==> |blocks[pl]| == |lists[pl]|
    ensures BlocksExist(chosen, blocks)
  {
    forall i | 0 <= i < |chosen|
      ensures chosen[i].pl < |blocks| && chosen[i].cid < |blocks[chosen[i].pl]|
    {
      assert chosen[i] in multiset(chosen);
      assert chosen[i] in multiset(candidates);
      CandidateOrigin(lists, cuts, query, chosen[i]);
    }
  }

  lemma BudgetReply(pq: seq<Item>, chosen: seq<BlockCandidate>, blocks: seq<seq<seq<nat>>>, rows: seq<Row>, query: Row,
                    isMember: nat -> bool, k: nat)
    requires Holds(pq, k, InvertedIndex.DocScores(rows, query), SeismicIndex.Admitted(ChosenDocs(chosen, blocks), isMember))
    ensures var all := InvertedIndex.DocScores(rows, query);
            && IsTopK(Ids(pq), SeismicIndex.Admitted(ChosenDocs(chosen, blocks), isMember), all, k)
            && forall i :: 0 <= i < |pq| ==> Ids(pq)[i] < |all| && BestFirst(pq)[i].score == all[Ids(pq)[i]]
  {
    var all := InvertedIndex.DocScores(rows, query);
    var settled := SeismicIndex.Admitted(ChosenDocs(chosen, blocks), isMember);
    DrainIsTopK(pq, k, all, settled);
    IdsListItems(pq, k, all, settled);
  }

  // ---------------------------------------------------------------- what the budget buys

  /** Some cut term's list has the document in one of its blocks. */
  ghost predicate InCutBlocks(blocks: seq<seq<seq<nat>>>, cuts: seq<nat>, d: nat) {
    exists i, c :: 0 <= i < |cuts| && cuts[i] < |blocks| && 0 <= c < |blocks[cuts[i]]| && d in blocks[cuts[i]][c]
  }

  /** All candidates together hold the documents of all blocks of the cut terms. */
  lemma AllBlocks(lists: seq<seq<Cluster>>, cuts: seq<nat>, query: Row, blocks: seq<seq<seq<nat>>>, d: nat)
    requires |blocks| == |lists| && forall pl :: 0 <= pl < |lists| ==> |blocks[pl]| == |lists[pl]|
    ensures d in ChosenDocs(CandidatesOf(lists, cuts, query), blocks) <==> InCutBlocks(blocks, cuts, d)
  {
    hide CandidatesOf, ChosenDocs, Dot;
    var candidates := CandidatesOf(lists, cuts, query);
    ChosenOrigin(candidates, blocks, d);
    if x :| x in candidates && x.pl < |blocks| && x.cid < |blocks[x.pl]| && d in blocks[x.pl][x.cid] {
      CandidateOrigin(lists, cuts, query, x);
      var i :| 0 <= i < |cuts| && cuts[i] == x.pl;
      assert d in blocks[cuts[i]][x.cid];
    }
    if i, c :| 0 <= i < |cuts| && cuts[i] < |blocks| && 0 <= c < |blocks[cuts[i]]| && d in blocks[cuts[i]][c] {
      var x := BlockCandidate(Dot(lists[cuts[i]][c].summary, query), cuts[i], c);
      CandidateOrigin(lists, cuts, query, x);
      assert x in candidates && d in blocks[x.pl][x.cid];
    }
  }

  /** The admitted documents below n in the blocks of the cut terms. */
  ghost function CutDocs(blocks: seq<seq<seq<nat>>>, cuts: seq<nat>, isMember: nat -> bool, n: nat): set<nat> {
    set d: nat | d < n && InCutBlocks(blocks, cuts, d) && isMember(d)
  }

  /** The budget covers n candidates; a negative one stands for its 64-bit pattern. */
  ghost predicate Covers(kPrime: int, n: nat) {
    if kPrime >= 0 then n <= kPrime else n <= kPrime + 0x1_0000_0000_0000_0000
  }

  /** Then the run is an exact top-k of every admitted document in the blocks of the cut terms. */
  lemma CoveredRun(result: Result<(seq<real>, seq<nat>)>, lists: seq<seq<Cluster>>, cuts: seq<nat>, query: Row, kPrime: int,
                   blocks: seq<seq<seq<nat>>>, rows: seq<Row>, isMember: nat -> bool, k: int)
    requires kPrime + SIZE_T_RANGE >= 0 && IsBudgetRun(result, lists, cuts, query, kPrime, blocks, rows, isMember, k) && result.Ok?
    requires Covers(kPrime, |CandidatesOf(lists, cuts, query)|)
    requires |blocks| == |lists| && forall pl :: 0 <= pl < |lists| ==> |blocks[pl]| == |lists[pl]|
    requires forall pl, c :: 0 <= pl < |blocks| && 0 <= c < |blocks[pl]| ==> InRange(blocks[pl][c], |rows|)
    ensures k > 0
    ensures IsTopK(result.value.1, CutDocs(blocks, cuts, isMember, |rows|), InvertedIndex.DocScores(rows, LastWeights(query)), k)
  {
    hide CandidatesOf, ChosenDocs, IsTopK, InvertedIndex.DocScores, LastWeights, InCutBlocks;
    var candidates := CandidatesOf(lists, cuts, query);
    assert Selected(candidates, AsSize(kPrime)) == candidates;
    var searched := SeismicIndex.Admitted(ChosenDocs(candidates, blocks), isMember);
    forall d: nat
      ensures d in searched <==> d in CutDocs(blocks, cuts, isMember, |rows|)
    {
      AllBlocks(lists, cuts, query, blocks, d);
      BlocksBelow(blocks, cuts, |rows|, d);
    }
    assert searched == CutDocs(blocks, cuts, isMember, |rows|);
  }

  lemma BlocksBelow(blocks: seq<seq<seq<nat>>>, cuts: seq<nat>, n: nat, d: nat)
    requires forall pl, c :: 0 <= pl < |blocks| && 0 <= c < |blocks[pl]| ==> InRange(blocks[pl][c], n)
    ensures InCutBlocks(blocks, cuts, d) ==> d < n
  {
  }

  /** A budget that covers every candidate searches every document of the cut terms' clusters. */
  lemma FullBudget(lists: seq<seq<Cluster>>, cuts: seq<nat>, query: Row, budget: nat, chosen: seq<BlockCandidate>,
                   rest: seq<BlockCandidate>, d: nat)
    requires IsSelection(chosen, rest, CandidatesOf(lists, cuts, query), budget)
    requires budget >= |CandidatesOf(lists, cuts, query)|
    ensures d in ChosenDocs(chosen, Docs(lists)) <==> SeismicIndex.Reached(lists, cuts, d)
  {
    hide CandidatesOf, ChosenDocs;
    var blocks := Docs(lists);
    AllBlocks(lists, cuts, query, blocks, d);
    if i, c :| 0 <= i < |cuts| && cuts[i] < |blocks| && 0 <= c < |blocks[cuts[i]]| && d in blocks[cuts[i]][c] {
      assert d in lists[cuts[i]][c].docs;
      assert Inside(lists[cuts[i]], d);
    }
    if i :| 0 <= i < |cuts| && cuts[i] < |lists| && Inside(lists[cuts[i]], d) {
      var c :| 0 <= c < |lists[cuts[i]]| && d in lists[cuts[i]][c].docs;
      assert d in blocks[cuts[i]][c];
    }
  }

  /** The blocks' documents, list by list. */
  ghost function Docs(lists: seq<seq<Cluster>>): (blocks: seq<seq<seq<nat>>>)
    ensures |blocks| == |lists| && forall t :: 0 <= t < |lists| ==> blocks[t] == GroupsOf(lists[t])
  {
    seq(|lists|, t requires 0 <= t < |lists| => GroupsOf(lists[t]))
  }

  /** A selection that contains another never answers with a lower score at any rank. */
  lemma WiderSelection(fewScores: seq<real>, fewIds: seq<nat>, few: seq<BlockCandidate>,
                       manyScores: seq<real>, manyIds: seq<nat>, many: seq<BlockCandidate>,
                       blocks: seq<seq<seq<nat>>>, rows: seq<Row>, query: Row, isMember: nat -> bool, k: nat)
    requires IsBudgetReply(fewScores, fewIds, few, blocks, rows, query, isMember, k)
    requires IsBudgetReply(manyScores, manyIds, many, blocks, rows, query, isMember, k)
    requires forall x :: x in few ==> x in many
    ensures |fewScores| <= |manyScores|
    ensures forall i :: 0 <= i < |fewScores| ==> fewScores[i] <= manyScores[i]
  {
    var narrow, wide := SeismicIndex.Admitted(ChosenDocs(few, blocks), isMember), SeismicIndex.Admitted(ChosenDocs(many, blocks), isMember);
    forall d | d in narrow
      ensures d in wide
    {
      ChosenOrigin(few, blocks, d);
      ChosenOrigin(many, blocks, d);
    }
    WiderNeverLowers(fewIds, narrow, manyIds, wide, InvertedIndex.DocScores(rows, query), k);
  }

  /** Two views of the lists that differ at most in the memberships they hold. */
  ghost predicate SameSummaries(a: seq<seq<Cluster>>, b: seq<seq<Cluster>>) {
    && |a| == |b|
    && (forall t :: 0 <= t < |a| ==> |a[t]| == |b[t]|)
    && (forall t, c :: 0 <= t < |a| && 0 <= c < |a[t]| ==> a[t][c].summary == b[t][c].summary)
  }

  /** The candidates depend on the summaries alone. */
  lemma {:induction false} SameCandidates(a: seq<seq<Cluster>>, b: seq<seq<Cluster>>, cuts: seq<nat>, query: Row)
    requires SameSummaries(a, b)
    ensures CandidatesOf(a, cuts, query) == CandidatesOf(b, cuts, query)
  {
    hide Dot;
    if cuts != [] {
      var term := cuts[|cuts| - 1];
      SameCandidates(a, b, cuts[..|cuts| - 1], query);
      if term < |a| {
        assert ListCandidates(term, a[term], query) == ListCandidates(term, b[term], query);
      }
    }
  }

  /**
   * Two runs of one query agree, one over a mapped index whose lists keep no memberships and one
   * over a fresh index: both succeed or neither does, with the same scores rank by rank.
   */
  lemma MappedEqualsFresh(onDisk: Result<(seq<real>, seq<nat>)>, inMemory: Result<(seq<real>, seq<nat>)>, mappedLists: seq<seq<Cluster>>,
                          freshLists: seq<seq<Cluster>>, cuts: seq<nat>, query: Row, kPrime: int, blocks: seq<seq<seq<nat>>>,
                          rows: seq<Row>, isMember: nat -> bool, k: int)
    requires kPrime + SIZE_T_RANGE >= 0 && SameSummaries(mappedLists, freshLists)
    requires IsBudgetRun(onDisk, mappedLists, cuts, query, kPrime, blocks, rows, isMember, k)
    requires IsBudgetRun(inMemory, freshLists, cuts, query, kPrime, blocks, rows, isMember, k)
    ensures onDisk.Ok? <==> inMemory.Ok?
    ensures onDisk.Ok? ==> onDisk.value.0 == inMemory.value.0
  {
    hide CandidatesOf, Selected, ChosenDocs;
    SameCandidates(mappedLists, freshLists, cuts, query);
    if onDisk.Ok? {
      var chosen := Selected(CandidatesOf(freshLists, cuts, query), AsSize(kPrime));
      SameCandidatesSameScores(onDisk.value.1, inMemory.value.1, SeismicIndex.Admitted(ChosenDocs(chosen, blocks), isMember),
                               InvertedIndex.DocScores(rows, LastWeights(query)), k);
    }
  }
}
