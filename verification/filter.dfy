/** The eligibility filter `filter_repositories`: which repository nodes of a
    page of search results are kept, and the record each kept node becomes. */
module Filter {
  import opened Wrappers
  import opened Text

  /* ---------------------------------------------------------------------------
     Raw nodes, as decoded from a page of search results
     ------------------------------------------------------------------------- */

  /** An entry of the root tree of a repository's `master` branch. */
  datatype Entry = Entry(name: string, kind: string)

  /** The node's `object`: its `entries`, and whether it has members besides
      them. The query selects only `entries` from a tree, so an object that is
      no tree is the empty object `{}`. */
  datatype Tree = Tree(entries: Option<seq<Entry>>, others: bool)

  /** A repository node. A metric (`issues`, `releases`, `stargazers`,
      `watchers`) is the `totalCount` of its structure, `None` when the
      structure is `null`. `Member` fields distinguish a missing key from
      `null`; `owner` is the owner's `login`, `Absent` when the owner or its
      login is missing; `tree` is the node's `object`. */
  datatype Node = Node(
    databaseId: Option<int>,
    defaultBranchRef: Member<Option<string>>,
    owner: Member<string>,
    name: Member<string>,
    url: Option<string>,
    description: Option<string>,
    primaryLanguage: Option<string>,
    stargazers: Option<int>,
    watchers: Option<int>,
    releases: Option<int>,
    issues: Option<int>,
    createdAt: Option<string>,
    pushedAt: Option<string>,
    hasIssuesEnabled: Member<bool>,
    isDisabled: Member<bool>,
    isFork: Member<bool>,
    isLocked: Member<bool>,
    isTemplate: Member<bool>,
    tree: Option<Tree>)

  /** An edge of the search result; `node` is `None` when it is missing, `null`
      or the empty object, all of which are falsy. */
  datatype Edge = Edge(node: Option<Node>)

  /** The minimum counts a collector was created with. */
  datatype Thresholds = Thresholds(minIssues: int, minReleases: int, minWatchers: int)

  /** A kept repository, as the dictionary the filter yields. */
  datatype Record = Record(
    id: Option<int>,
    defaultBranch: Option<string>,
    owner: Option<string>,
    name: Option<string>,
    url: Option<string>,
    description: string,
    issues: int,
    releases: int,
    stars: int,
    watchers: int,
    primaryLanguage: string,
    createdAt: string,
    pushedAt: string,
    dirs: seq<string>)

  /* ---------------------------------------------------------------------------
     Reading a node
     ------------------------------------------------------------------------- */

  /** A metric with a `null` structure counts as zero. */
  function Count(metric: Option<int>): int
  {
    metric.GetOr(0)
  }

  /** `str(x)` of a member that is a string or `None`. */
  function Str(s: Option<string>): string
  {
    match s
    case Some(v) => v
    case None => "None"
  }

  /** The node's `object` is truthy: present and not the empty object. */
  predicate HasTree(n: Node)
  {
    n.tree.Some? && (n.tree.value.entries.Some? || n.tree.value.others)
  }

  /** `object.get('entries', [])`. */
  function EntriesOf(t: Tree): seq<Entry>
  {
    t.entries.GetOr([])
  }

  /** The names of the entries of type `tree`, in their order. */
  function Dirs(es: seq<Entry>): (ds: seq<string>)
    ensures |ds| <= |es|
  {
    if |es| == 0 then []
    else Dirs(es[..|es| - 1]) + (if es[|es| - 1].kind == "tree" then [es[|es| - 1].name] else [])
  }

  /** Why a node is not kept, or that it is, in the order the filter checks. */
  datatype Verdict =
    | Missing
    | IssuesDisabled
    | TooFewIssues
    | TooFewReleases
    | TooFewWatchers
    | Inactive
    | Forked
    | NoTree
    | Kept

  /** The checks of the filter, one after the other. */
  function Judge(e: Edge, th: Thresholds): Verdict
  {
    match e.node
    case None => Missing
    case Some(n) =>
      if th.minIssues != 0 && !Truthy(n.hasIssuesEnabled, true) then IssuesDisabled
      else if Count(n.issues) < th.minIssues then TooFewIssues
      else if Count(n.releases) < th.minReleases then TooFewReleases
      else if Count(n.watchers) < th.minWatchers then TooFewWatchers
      else if Truthy(n.isDisabled, false) || Truthy(n.isLocked, false) || Truthy(n.isTemplate, false) then Inactive
      else if Truthy(n.isFork, false) then Forked
      else if !HasTree(n) then NoTree
      else Kept
  }

  /** The conditions a kept node meets, all at once. */
  predicate Eligible(e: Edge, th: Thresholds)
  {
    && e.node.Some?
    && var n := e.node.value;
    && (th.minIssues == 0 || Truthy(n.hasIssuesEnabled, true))
    && Count(n.issues) >= th.minIssues
    && Count(n.releases) >= th.minReleases
    && Count(n.watchers) >= th.minWatchers
    && !Truthy(n.isDisabled, false)
    && !Truthy(n.isLocked, false)
    && !Truthy(n.isTemplate, false)
    && !Truthy(n.isFork, false)
    && HasTree(n)
  }

  /** A kept node whose `defaultBranchRef` is `null` makes the filter raise
      (`None.get`); the filter is applied only to edges where it does not. */
  predicate Safe(e: Edge, th: Thresholds)
  {
    Judge(e, th) == Kept ==> e.node.value.defaultBranchRef != Null
  }

  predicate AllSafe(es: seq<Edge>, th: Thresholds)
  {
    forall i | 0 <= i < |es| :: Safe(es[i], th)
  }

  /** The record a kept node becomes. */
  function ToRecord(n: Node): Record
    requires HasTree(n) && n.defaultBranchRef != Null
  {
    Record(
      n.databaseId,
      match n.defaultBranchRef case Absent => None case Given(b) => b,
      Get(n.owner, ""),
      Get(n.name, ""),
      n.url,
      n.description.GetOr(""),
      Count(n.issues),
      Count(n.releases),
      Count(n.stargazers),
      Count(n.watchers),
      match n.primaryLanguage case Some(l) => Lower(l) case None => "",
      Str(n.createdAt),
      Str(n.pushedAt),
      Dirs(EntriesOf(n.tree.value)))
  }

  /** `filter_repositories(edges)`, collected into a list. */
  function FilterPage(es: seq<Edge>, th: Thresholds): (rs: seq<Record>)
    requires AllSafe(es, th)
    ensures |rs| <= |es|
  {
    if |es| == 0 then []
    else
      var e := es[|es| - 1];
      FilterPage(es[..|es| - 1], th)
        + (if Judge(e, th) == Kept then [ToRecord(e.node.value)] else [])
  }

  /* ---------------------------------------------------------------------------
     The checks
     ------------------------------------------------------------------------- */

  /** The filter keeps exactly the eligible nodes; each rejection names a
      condition the node fails. */
  lemma JudgeSound(e: Edge, th: Thresholds)
    ensures Judge(e, th) == Kept <==> Eligible(e, th)
    ensures Judge(e, th) == Missing ==> e.node.None?
    ensures Judge(e, th) == IssuesDisabled ==> th.minIssues != 0 && !Truthy(e.node.value.hasIssuesEnabled, true)
    ensures Judge(e, th) == TooFewIssues ==> Count(e.node.value.issues) < th.minIssues
    ensures Judge(e, th) == TooFewReleases ==> Count(e.node.value.releases) < th.minReleases
    ensures Judge(e, th) == TooFewWatchers ==> Count(e.node.value.watchers) < th.minWatchers
    ensures Judge(e, th) == Inactive ==>
      Truthy(e.node.value.isDisabled, false) || Truthy(e.node.value.isLocked, false) || Truthy(e.node.value.isTemplate, false)
    ensures Judge(e, th) == Forked ==> Truthy(e.node.value.isFork, false)
    ensures Judge(e, th) == NoTree ==> !HasTree(e.node.value)
  {
  }

  /** A missing node is skipped, whatever the thresholds. */
  lemma MissingSkipped(th: Thresholds)
    ensures !Eligible(Edge(None), th)
  {
  }

  /** A disabled, locked, template or forked repository is never kept,
      whatever the thresholds. */
  lemma FlagsReject(n: Node, th: Thresholds)
    requires Truthy(n.isDisabled, false) || Truthy(n.isLocked, false)
          || Truthy(n.isTemplate, false) || Truthy(n.isFork, false)
    ensures !Eligible(Edge(Some(n)), th)
  {
  }

  /** Marking a kept repository as a fork is enough to drop it. */
  lemma ForkFlips(n: Node, th: Thresholds)
    requires Eligible(Edge(Some(n)), th)
    ensures !Eligible(Edge(Some(n.(isFork := Given(true)))), th)
    ensures Eligible(Edge(Some(n.(isFork := Given(false)))), th)
  {
  }

  /** A `null` metric structure behaves as a count of zero: a threshold of at
      most zero lets it pass and a positive threshold rejects it. */
  lemma NullMetricIsZero(n: Node, th: Thresholds)
    requires n.issues.None? || n.releases.None? || n.watchers.None?
    ensures Eligible(Edge(Some(n)), th) <==>
      Eligible(Edge(Some(n.(issues := Some(Count(n.issues)),
                            releases := Some(Count(n.releases)),
                            watchers := Some(Count(n.watchers))))), th)
    ensures n.issues.None? && th.minIssues > 0 ==> !Eligible(Edge(Some(n)), th)
    ensures n.releases.None? && th.minReleases > 0 ==> !Eligible(Edge(Some(n)), th)
    ensures n.watchers.None? && th.minWatchers > 0 ==> !Eligible(Edge(Some(n)), th)
  {
  }

  /** The issue-tracking flag matters only when a minimum number of issues is
      asked for; a missing flag counts as enabled and a `null` one as disabled. */
  lemma IssuesFlag(n: Node, th: Thresholds, flag: Member<bool>)
    ensures th.minIssues == 0 ==>
      (Eligible(Edge(Some(n.(hasIssuesEnabled := flag))), th) <==> Eligible(Edge(Some(n)), th))
    ensures th.minIssues != 0 && (flag == Null || flag == Given(false)) ==>
      !Eligible(Edge(Some(n.(hasIssuesEnabled := flag))), th)
    ensures Eligible(Edge(Some(n.(hasIssuesEnabled := Absent))), th) <==>
      Eligible(Edge(Some(n.(hasIssuesEnabled := Given(true)))), th)
  {
  }

  /** A node without a tree is never kept. */
  lemma NoTreeRejected(n: Node, th: Thresholds)
    requires !HasTree(n)
    ensures !Eligible(Edge(Some(n)), th)
  {
  }

  /** Stars take no part in the decision. */
  lemma StarsIgnored(n: Node, th: Thresholds, stars: Option<int>)
    ensures Eligible(Edge(Some(n.(stargazers := stars))), th) <==> Eligible(Edge(Some(n)), th)
  {
  }

  /** Lower thresholds keep every node higher ones keep, as long as asking for
      issues is not newly switched on. */
  lemma EligibleMonotone(e: Edge, th1: Thresholds, th2: Thresholds)
    requires Eligible(e, th1)
    requires th2.minIssues <= th1.minIssues && th2.minReleases <= th1.minReleases
    requires th2.minWatchers <= th1.minWatchers
    requires th1.minIssues != 0 || th2.minIssues == 0
    ensures Eligible(e, th2)
  {
  }

  /* ---------------------------------------------------------------------------
     The records
     ------------------------------------------------------------------------- */

  /** Directories are the tree entries, in their order. */
  lemma {:induction false} DirsAppend(xs: seq<Entry>, ys: seq<Entry>)
    ensures Dirs(xs + ys) == Dirs(xs) + Dirs(ys)
    decreases |ys|
  {
    if |ys| > 0 {
      assert (xs + ys)[..|xs + ys| - 1] == xs + ys[..|ys| - 1];
      DirsAppend(xs, ys[..|ys| - 1]);
    } else {
      assert xs + ys == xs;
    }
  }

  /** A name is a directory exactly when some entry of type `tree` has it. */
  lemma {:induction false} DirsMember(es: seq<Entry>, d: string)
    ensures d in Dirs(es) <==> exists i | 0 <= i < |es| :: es[i].kind == "tree" && es[i].name == d
    decreases |es|
  {
    if |es| > 0 {
      var init := es[..|es| - 1];
      DirsMember(init, d);
      if d in Dirs(init) {
        var i :| 0 <= i < |init| && init[i].kind == "tree" && init[i].name == d;
        assert es[i] == init[i];
      }
      if exists i | 0 <= i < |es| :: es[i].kind == "tree" && es[i].name == d {
        var i :| 0 <= i < |es| && es[i].kind == "tree" && es[i].name == d;
        if i < |es| - 1 {
          assert init[i] == es[i];
        }
      }
    }
  }

  /** What the record of a kept node holds: the defaulted counts, the
      description or the empty string, the language lower-cased or the empty
      string, the timestamps as `str` renders them, and the directories. */
  lemma RecordFields(n: Node)
    requires HasTree(n) && n.defaultBranchRef != Null
    ensures var r := ToRecord(n);
      && (n.description.None? || n.description == Some("") <==> r.description == "")
      && (n.description.Some? ==> r.description == n.description.value)
      && (n.primaryLanguage.None? ==> r.primaryLanguage == "")
      && (n.primaryLanguage.Some? ==>
            && |r.primaryLanguage| == |n.primaryLanguage.value|
            && forall i | 0 <= i < |r.primaryLanguage| ::
                 !IsUpper(r.primaryLanguage[i]) && LowerChar(n.primaryLanguage.value[i]) == r.primaryLanguage[i])
      && r.issues == (if n.issues.Some? then n.issues.value else 0)
      && r.releases == (if n.releases.Some? then n.releases.value else 0)
      && r.stars == (if n.stargazers.Some? then n.stargazers.value else 0)
      && r.watchers == (if n.watchers.Some? then n.watchers.value else 0)
      && (n.createdAt.Some? ==> r.createdAt == n.createdAt.value)
      && (n.createdAt.None? ==> r.createdAt == "None")
      && (n.pushedAt.Some? ==> r.pushedAt == n.pushedAt.value)
      && (n.pushedAt.None? ==> r.pushedAt == "None")
      && (n.owner == Absent ==> r.owner == Some(""))
      && (n.name == Absent ==> r.name == Some(""))
  {
  }

  /** A kept node's directories: none when its object has no `entries`,
      and otherwise exactly the names of its entries of type `tree`. */
  lemma RecordDirs(n: Node, d: string)
    requires HasTree(n) && n.defaultBranchRef != Null
    ensures n.tree.value.entries.None? ==> ToRecord(n).dirs == []
    ensures var es := EntriesOf(n.tree.value);
      d in ToRecord(n).dirs <==> exists i | 0 <= i < |es| :: es[i].kind == "tree" && es[i].name == d
  {
    DirsMember(EntriesOf(n.tree.value), d);
  }

  /* ---------------------------------------------------------------------------
     The filter over a page
     ------------------------------------------------------------------------- */

  /** Filtering a page is filtering its parts. */
  lemma {:induction false} FilterAppend(xs: seq<Edge>, ys: seq<Edge>, th: Thresholds)
    requires AllSafe(xs, th) && AllSafe(ys, th)
    ensures AllSafe(xs + ys, th)
    ensures FilterPage(xs + ys, th) == FilterPage(xs, th) + FilterPage(ys, th)
    decreases |ys|
  {
    if |ys| > 0 {
      assert (xs + ys)[..|xs + ys| - 1] == xs + ys[..|ys| - 1];
      FilterAppend(xs, ys[..|ys| - 1], th);
    } else {
      assert xs + ys == xs;
    }
  }

  /** The positions of the eligible edges, in increasing order. */
  function KeptAt(es: seq<Edge>, th: Thresholds): (ks: seq<nat>)
    ensures forall j | 0 <= j < |ks| :: ks[j] < |es| && Eligible(es[ks[j]], th)
    ensures forall j, j' | 0 <= j < j' < |ks| :: ks[j] < ks[j']
    ensures forall i | 0 <= i < |es| && Eligible(es[i], th) :: i in ks
  {
    if |es| == 0 then []
    else
      var init := KeptAt(es[..|es| - 1], th);
      init + (if Eligible(es[|es| - 1], th) then [|es| - 1] else [])
  }

  /** The page's records are the records of its eligible nodes, in page order:
      one per eligible edge and none for any other. */
  lemma {:induction false} FilterKeeps(es: seq<Edge>, th: Thresholds)
    requires AllSafe(es, th)
    ensures |FilterPage(es, th)| == |KeptAt(es, th)|
    ensures forall j | 0 <= j < |KeptAt(es, th)| ::
      var e := es[KeptAt(es, th)[j]];
      e.node.Some? && HasTree(e.node.value) && e.node.value.defaultBranchRef != Null
      && FilterPage(es, th)[j] == ToRecord(e.node.value)
    decreases |es|
  {
    if |es| > 0 {
      var init := es[..|es| - 1];
      var e := es[|es| - 1];
      FilterKeeps(init, th);
      JudgeSound(e, th);
      var ks := KeptAt(es, th);
      var ks0 := KeptAt(init, th);
      forall j | 0 <= j < |ks|
        ensures var e' := es[ks[j]];
          e'.node.Some? && HasTree(e'.node.value) && e'.node.value.defaultBranchRef != Null
          && FilterPage(es, th)[j] == ToRecord(e'.node.value)
      {
        if j < |ks0| {
          assert es[ks0[j]] == init[ks0[j]];
        }
      }
    }
  }

  /** A page in which no node is eligible yields nothing. */
  lemma {:induction false} FilterNone(es: seq<Edge>, th: Thresholds)
    requires forall i | 0 <= i < |es| :: !Eligible(es[i], th)
    ensures AllSafe(es, th) && FilterPage(es, th) == []
    decreases |es|
  {
    if |es| > 0 {
      JudgeSound(es[|es| - 1], th);
      FilterNone(es[..|es| - 1], th);
    }
  }

  /** Every record the stricter filter yields, the looser one yields too. */
  lemma {:induction false} FilterMonotone(es: seq<Edge>, th1: Thresholds, th2: Thresholds, r: Record)
    requires AllSafe(es, th1) && AllSafe(es, th2)
    requires th2.minIssues <= th1.minIssues && th2.minReleases <= th1.minReleases
    requires th2.minWatchers <= th1.minWatchers
    requires th1.minIssues != 0 || th2.minIssues == 0
    requires r in FilterPage(es, th1)
    ensures r in FilterPage(es, th2)
    decreases |es|
  {
    var init := es[..|es| - 1];
    var e := es[|es| - 1];
    JudgeSound(e, th1);
    JudgeSound(e, th2);
    if r in FilterPage(init, th1) {
      FilterMonotone(init, th1, th2, r);
    } else {
      EligibleMonotone(e, th1, th2);
    }
  }

  /** A node without issues and with a `src` directory beside a file, under
      zero thresholds, gives one record with no issues and `src` as its only
      directory. */
  lemma SingleNodePage()
    ensures var n := Node(
        Some(1), Given(Some("master")), Given("octo"), Given("repo"), Some("https://example.org/octo/repo"),
        None, None, Some(10), Some(0), Some(0), None, Some("2020-01-01T00:00:00Z"), None,
        Given(true), Given(false), Given(false), Absent, Absent,
        Some(Tree(Some([Entry("src", "tree"), Entry("README.md", "blob")]), false)));
      var es := [Edge(Some(n))];
      var th := Thresholds(0, 0, 0);
      AllSafe(es, th)
      && |FilterPage(es, th)| == 1
      && FilterPage(es, th)[0].issues == 0
      && FilterPage(es, th)[0].stars == 10
      && FilterPage(es, th)[0].dirs == ["src"]
      && FilterPage(es, th)[0].pushedAt == "None"
  {
    var entries := [Entry("src", "tree"), Entry("README.md", "blob")];
    assert entries[..1] == [Entry("src", "tree")];
    assert entries[..1][..0] == [];
    assert Dirs(entries) == ["src"];
  }
}
