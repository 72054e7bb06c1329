/** From one posting list to its clusters: prune, cluster, flatten, summarize. */
module ClusteredLists {
  import opened SparseDot
  import opened SparseVectors
  import opened Summaries
  import opened InvertedLists
  import opened KMeans
  import Clusters = InvertedListClusters
  import Sorting

  /** One cluster of a list: its documents and the summary it is pruned by. */
  datatype Cluster = Cluster(docs: seq<nat>, summary: Row)

  /** The build parameters, defaults already resolved; lam is the number of postings kept, lambda. */
  datatype Parameters = Parameters(lam: nat, beta: nat, alpha: real)

  ghost function ClustersOf(list: Clusters.InvertedListClusters): (clusters: seq<Cluster>)
    requires list.Valid()
    reads list
    ensures |clusters| == list.nClusters
    ensures forall c :: 0 <= c < list.nClusters ==> clusters[c] == Cluster(list.GetDocs(c), list.summaries[c])
  {
    seq(list.nClusters, c reads list requires list.Valid() && 0 <= c < list.nClusters => Cluster(list.GetDocs(c), list.summaries[c]))
  }

  ghost function ListsOf(lists: seq<Clusters.InvertedListClusters>): (r: seq<seq<Cluster>>)
    requires forall t :: 0 <= t < |lists| ==> lists[t].Valid()
    reads lists
    ensures |r| == |lists| && forall t :: 0 <= t < |lists| ==> r[t] == ClustersOf(lists[t])
  {
    seq(|lists|, t reads lists requires 0 <= t < |lists| && lists[t].Valid() => ClustersOf(lists[t]))
  }

  ghost predicate DocsBelow(clusters: seq<Cluster>, n: nat) {
    forall c :: 0 <= c < |clusters| ==> InRange(clusters[c].docs, n)
  }

  ghost function GroupsOf(clusters: seq<Cluster>): (groups: seq<seq<nat>>)
    ensures |groups| == |clusters| && forall c :: 0 <= c < |groups| ==> groups[c] == clusters[c].docs
  {
    seq(|clusters|, c requires 0 <= c < |clusters| => clusters[c].docs)
  }

  ghost predicate Summarized(clusters: seq<Cluster>, rows: seq<Row>, alpha: real) {
    DocsBelow(clusters, |rows|)
    && forall c :: 0 <= c < |clusters| ==> SummaryOf(clusters[c].summary, rows, clusters[c].docs, alpha)
  }

  /** The clusters of the posting list of term t: its pruned documents, clustered and summarized. */
  ghost predicate IsClusteredList(clusters: seq<Cluster>, rows: seq<Row>, list: seq<Posting>, params: Parameters) {
    && Summarized(clusters, rows, params.alpha)
    && exists kept: seq<nat> ::
         IsPruned(kept, list, params.lam) && IsClustering(GroupsOf(clusters), rows, kept)
         && IsClusterCount(|clusters|, |kept|, params.beta)
  }

  lemma NothingClustered(rows: seq<Row>)
    ensures IsClustering([], rows, [])
  {
  }

  /** The clusters of a group of documents each, summarized. */
  ghost function SummarizedGroups(rows: seq<Row>, groups: seq<seq<nat>>, alpha: real): (clusters: seq<Cluster>)
    requires forall c :: 0 <= c < |groups| ==> InRange(groups[c], |rows|)
    ensures |clusters| == |groups|
    ensures forall c :: 0 <= c < |groups| ==>
              InRange(groups[c], |rows|) && clusters[c] == Cluster(groups[c], SummaryFor(rows, groups[c], alpha))
  {
    seq(|groups|, c requires 0 <= c < |groups| && InRange(groups[c], |rows|) => Cluster(groups[c], SummaryFor(rows, groups[c], alpha)))
  }

  ghost predicate PostingsBelow(list: seq<Posting>, n: nat) {
    forall p :: 0 <= p < |list| ==> list[p].doc < n
  }

  /** What clustering a posting list gives, as a function of the list, the parameters and the draws. */
  ghost function ClustersFor(rows: seq<Row>, list: seq<Posting>, params: Parameters, draws: nat -> nat): seq<Cluster>
    requires PostingsBelow(list, |rows|)
  {
    var kept := Pruned(list, params.lam);
    PrunedInRange(list, params.lam, |rows|);
    TrainedInRange(rows, kept, params.beta, draws);
    SummarizedGroups(rows, Trained(rows, kept, params.beta, draws), params.alpha)
  }

  lemma PrunedInRange(list: seq<Posting>, lam: nat, n: nat)
    requires PostingsBelow(list, n)
    ensures InRange(Pruned(list, lam), n)
  {
    hide Sorting.Sorted;
    if lam != 0 && lam < |list| {
      Sorting.SortedContents(list, ByValue);
      var order := Sorting.Sorted(list, ByValue);
      forall i | 0 <= i < |order|
        ensures order[i].doc < n
      {
        assert order[i] in multiset(list);
      }
    }
  }

  /**
   * The clusters of one posting list are what the specification functions make of it; and those of a
   * list that names each document once partition what pruning keeps.
   */
  method ClusterList(csr: Csr, dim: nat, list: seq<Posting>, params: Parameters, draws: nat -> nat)
    returns (clustered: Clusters.InvertedListClusters)
    requires csr.Valid() && forall d :: 0 <= d < csr.Count() ==> TermsBelow(csr.Row(d), dim)
    requires PostingsBelow(list, csr.Count())
    ensures fresh(clustered) && clustered.Valid()
    ensures ClustersOf(clustered) == ClustersFor(csr.Rows(), list, params, draws)
    ensures Summarized(ClustersOf(clustered), csr.Rows(), params.alpha)
    ensures StrictlyAscending(list) ==> IsClusteredList(ClustersOf(clustered), csr.Rows(), list, params)
  {
    var kept := PruneAndKeepDocIds(list, params.lam);
    ghost var rows := csr.Rows();
    PrunedInRange(list, params.lam, |rows|);
    if StrictlyAscending(list) {
      PrunedMembers(kept, list, params.lam);
    }
    hide IsPruned, Pruned, Trained, StrictlyAscending, IsClustering, TermsBelow, BoundaryCheck, IsClusterCount;
    TrainedInRange(rows, kept, params.beta, draws);
    var groups := Train(csr, kept, params.beta, draws);
    if kept == [] {
      NothingClustered(rows);
    }
    clustered := SummarizeGroups(csr, dim, groups, params.alpha);
  }

  /** Flattens the groups and summarizes each. */
  method SummarizeGroups(csr: Csr, dim: nat, groups: seq<seq<nat>>, alpha: real)
    returns (clustered: Clusters.InvertedListClusters)
    requires csr.Valid() && forall d :: 0 <= d < csr.Count() ==> TermsBelow(csr.Row(d), dim)
    requires forall c :: 0 <= c < |groups| ==> InRange(groups[c], csr.Count())
    ensures fresh(clustered) && clustered.Valid()
    ensures ClustersOf(clustered) == SummarizedGroups(csr.Rows(), groups, alpha)
    ensures GroupsOf(ClustersOf(clustered)) == groups && Summarized(ClustersOf(clustered), csr.Rows(), alpha)
  {
    clustered := new Clusters.InvertedListClusters(groups);
    GroupsBelow(groups, csr.Count());
    hide TermsBelow, SummaryOf, SummaryFor, Summarized, ClustersOf, GroupsOf, Clusters.StrictlyIncreasing, ValidOffsets;
    clustered.Summarize(csr.Rows(), dim, alpha);
    ReadBack(clustered, groups, csr.Rows(), alpha);
  }

  /** The groups and summaries of a list, read back as clusters. */
  lemma ReadBack(list: Clusters.InvertedListClusters, groups: seq<seq<nat>>, rows: seq<Row>, alpha: real)
    requires list.Valid() && list.nClusters == |groups|
    requires forall i :: 0 <= i < |groups| ==> list.GetDocs(i) == groups[i]
    requires forall i :: 0 <= i < |groups| ==>
               (forall j :: 0 <= j < |list.GetDocs(i)| ==> list.GetDocs(i)[j] < |rows|)
               && list.summaries[i] == SummaryFor(rows, list.GetDocs(i), alpha)
               && SummaryOf(list.summaries[i], rows, list.GetDocs(i), alpha)
    ensures forall i :: 0 <= i < |groups| ==> InRange(groups[i], |rows|)
    ensures ClustersOf(list) == SummarizedGroups(rows, groups, alpha)
    ensures GroupsOf(ClustersOf(list)) == groups && Summarized(ClustersOf(list), rows, alpha)
  {
    hide SummaryOf, SummaryFor;
    var clusters := ClustersOf(list);
    forall c | 0 <= c < |clusters|
      ensures clusters[c].docs == groups[c] && InRange(clusters[c].docs, |rows|)
      ensures SummaryOf(clusters[c].summary, rows, clusters[c].docs, alpha)
    {
    }
  }

  lemma GroupsBelow(groups: seq<seq<nat>>, n: nat)
    requires forall c :: 0 <= c < |groups| ==> InRange(groups[c], n)
    ensures InRange(Clusters.Flatten(groups), n)
  {
    var flat := Clusters.Flatten(groups);
    forall i | 0 <= i < |flat|
      ensures flat[i] < n
    {
      FlattenMembers(groups, flat[i]);
    }
  }

  lemma {:induction false} FlattenMembers(groups: seq<seq<nat>>, d: nat)
    ensures d in Clusters.Flatten(groups) <==> exists c :: 0 <= c < |groups| && d in groups[c]
  {
    if groups != [] {
      var init := groups[..|groups| - 1];
      FlattenMembers(init, d);
      if c :| 0 <= c < |init| && d in init[c] {
        assert d in groups[c];
      }
    }
  }

  /** Some cluster holds the document. */
  ghost predicate Inside(clusters: seq<Cluster>, d: nat) {
    exists c :: 0 <= c < |clusters| && d in clusters[c].docs
  }

  /** The pruning length keeps every posting of the list. */
  ghost predicate KeepsAll(lam: nat, list: seq<Posting>) {
    lam == 0 || lam >= |list|
  }

  /** Unpruned, the clusters of a term hold exactly the documents that carry it. */
  lemma ClustersHoldTerm(clusters: seq<Cluster>, rows: seq<Row>, t: nat, params: Parameters, d: nat)
    requires IsClusteredList(clusters, rows, PostingsOf(rows, t), params)
    requires KeepsAll(params.lam, PostingsOf(rows, t)) && d < |rows|
    ensures Inside(clusters, d) <==> Carries(rows[d], t)
  {
    var list, groups := PostingsOf(rows, t), GroupsOf(clusters);
    var kept: seq<nat> :| IsPruned(kept, list, params.lam) && IsClustering(groups, rows, kept)
                          && IsClusterCount(|clusters|, |kept|, params.beta);
    assert multiset(Clusters.Flatten(groups)) == multiset(kept) && kept == DocsOf(list);
    hide IsPruned, IsClustering, Clusters.Flatten, Carries, Names;
    PostingsMember(rows, t, d);
    FlattenMembers(groups, d);
    DocsOfMembers(list, d);
    assert d in multiset(Clusters.Flatten(groups)) <==> d in multiset(kept);
    SameInside(clusters, d);
  }

  lemma DocsOfMembers(list: seq<Posting>, d: nat)
    ensures d in DocsOf(list) <==> Names(list, d)
  {
    assert forall p :: 0 <= p < |list| ==> DocsOf(list)[p] == list[p].doc;
  }

  lemma SameInside(clusters: seq<Cluster>, d: nat)
    ensures Inside(clusters, d) <==> exists c :: 0 <= c < |clusters| && d in GroupsOf(clusters)[c]
  {
    if c :| 0 <= c < |clusters| && d in clusters[c].docs {
      assert d in GroupsOf(clusters)[c];
    }
  }
}
