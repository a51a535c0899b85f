/**
 * The application sidebar: every project listed under "Recent Projects" (changed within a week)
 * or "Old Projects", each group newest first, optionally narrowed by a case-insensitive search.
 */
module AppSidebar {
  import opened Optional
  import opened Dicts
  import opened Projects
  import opened Store
  import opened Text

  /** A week in milliseconds. */
  const ONE_WEEK: int := 1000 * 60 * 60 * 24 * 7

  lemma OneWeekValue()
    ensures ONE_WEEK == 604800000
  {
  }

  type Entry = (string, Project)

  predicate IsRecent(e: Entry, now: int) {
    now - e.1.lastModified < ONE_WEEK
  }

  /** The entries on one side of the one-week line, in their given order. */
  function Group(es: seq<Entry>, now: int, recent: bool): (r: seq<Entry>)
    ensures forall e :: e in r <==> e in es && IsRecent(e, now) == recent
    ensures |r| <= |es|
  {
    if es == [] then []
    else
      var rest := Group(es[1..], now, recent);
      assert forall e :: e in es <==> e == es[0] || e in es[1..];
      if IsRecent(es[0], now) == recent then [es[0]] + rest else rest
  }

  /** The two groups split the entries: every entry lands in exactly one, with its multiplicity. */
  lemma {:induction false} GroupsPartition(es: seq<Entry>, now: int)
    ensures multiset(Group(es, now, true)) + multiset(Group(es, now, false)) == multiset(es)
  {
    if es != [] {
      GroupsPartition(es[1..], now);
      assert es == [es[0]] + es[1..];
    }
  }

  /** Newest first: `lastModified` never increases along the list. */
  ghost predicate NewestFirst(s: seq<Entry>) {
    forall i, j :: 0 <= i < j < |s| ==> s[i].1.lastModified >= s[j].1.lastModified
  }

  /** Puts `x` before the first entry not newer than it, so it stays ahead of equal ones. */
  function Insert(x: Entry, s: seq<Entry>): (r: seq<Entry>)
    ensures multiset(r) == multiset(s) + multiset{x}
    ensures |r| == |s| + 1
  {
    if s == [] || s[0].1.lastModified <= x.1.lastModified then [x] + s
    else
      assert s == [s[0]] + s[1..];
      [s[0]] + Insert(x, s[1..])
  }

  lemma {:induction false} InsertNewestFirst(x: Entry, s: seq<Entry>)
    requires NewestFirst(s)
    ensures NewestFirst(Insert(x, s))
  {
    var r := Insert(x, s);
    if s == [] || s[0].1.lastModified <= x.1.lastModified {
      forall i, j | 0 <= i < j < |r| ensures r[i].1.lastModified >= r[j].1.lastModified {
        if i > 0 {
          assert r[i] == s[i - 1] && r[j] == s[j - 1];
        } else {
          assert r[j] == s[j - 1];
        }
      }
    } else {
      var t := Insert(x, s[1..]);
      InsertNewestFirst(x, s[1..]);
      assert r == [s[0]] + t;
      forall j | 0 <= j < |t| ensures s[0].1.lastModified >= t[j].1.lastModified {
        assert t[j] in multiset(t);
        assert t[j] == x || t[j] in multiset(s[1..]);
        if t[j] != x {
          assert t[j] in s[1..];
        }
      }
    }
  }

  /** `.sort((a, b) => b.lastModified - a.lastModified)`: a stable sort, newest first. */
  function SortNewestFirst(es: seq<Entry>): (r: seq<Entry>)
    ensures NewestFirst(r) && multiset(r) == multiset(es) && |r| == |es|
  {
    if es == [] then [] else
      assert es == [es[0]] + es[1..];
      InsertNewestFirst(es[0], SortNewestFirst(es[1..]));
      Insert(es[0], SortNewestFirst(es[1..]))
  }

  /** The entries stamped with time `t`, in their order. */
  function StampedAt(s: seq<Entry>, t: int): seq<Entry> {
    if s == [] then [] else (if s[0].1.lastModified == t then [s[0]] else []) + StampedAt(s[1..], t)
  }

  lemma StampedAtCons(e: Entry, s: seq<Entry>, t: int)
    ensures StampedAt([e] + s, t) == (if e.1.lastModified == t then [e] else []) + StampedAt(s, t)
  {
    assert ([e] + s)[1..] == s;
  }

  lemma {:induction false} InsertStable(x: Entry, s: seq<Entry>, t: int)
    ensures StampedAt(Insert(x, s), t) == (if x.1.lastModified == t then [x] else []) + StampedAt(s, t)
  {
    if s == [] || s[0].1.lastModified <= x.1.lastModified {
      StampedAtCons(x, s, t);
    } else {
      var r := Insert(x, s[1..]);
      InsertStable(x, s[1..], t);
      StampedAtCons(s[0], r, t);
      StampedAtCons(s[0], s[1..], t);
      assert s == [s[0]] + s[1..];
    }
  }

  /** Stability: entries with equal stamps keep their relative order. */
  lemma {:induction false} SortStable(es: seq<Entry>, t: int)
    ensures StampedAt(SortNewestFirst(es), t) == StampedAt(es, t)
  {
    if es != [] {
      SortStable(es[1..], t);
      InsertStable(es[0], SortNewestFirst(es[1..]), t);
    }
  }

  /** `name.toLowerCase().includes(query.toLowerCase())`. */
  predicate Matches(name: string, query: string) {
    Includes(ToLower(name), ToLower(query))
  }

  /** Search reads `project.name` of every listed entry: a partial record without a name
      would throw, so a non-empty query needs every name. */
  predicate Searchable(es: seq<Entry>, query: string) {
    query != "" ==> forall e :: e in es ==> NameOf(e.1).Some?
  }

  /** The search step: no filtering for an empty query, otherwise the matching entries. */
  function Search(es: seq<Entry>, query: string): (r: seq<Entry>)
    requires Searchable(es, query)
    ensures query == "" ==> r == es
    ensures forall e :: e in r <==> e in es && (query == "" || Matches(NameOf(e.1).value, query))
    ensures |r| <= |es|
  {
    if query == "" then es
    else if es == [] then []
    else
      var rest := Search(es[1..], query);
      assert forall e :: e in es <==> e == es[0] || e in es[1..];
      if Matches(NameOf(es[0].1).value, query) then [es[0]] + rest else rest
  }

  /** Filtering a newest-first list keeps it newest first. */
  lemma {:induction false} SearchKeepsOrder(es: seq<Entry>, query: string)
    requires Searchable(es, query) && NewestFirst(es)
    ensures NewestFirst(Search(es, query))
  {
    if query != "" && es != [] {
      assert NewestFirst(es[1..]);
      SearchKeepsOrder(es[1..], query);
      var r := Search(es, query);
      if Matches(NameOf(es[0].1).value, query) {
        forall j | 1 <= j < |r| ensures r[0].1.lastModified >= r[j].1.lastModified {
          assert r[j] in es;
        }
      }
    }
  }

  lemma ToLowerIdempotent(s: string)
    ensures ToLower(ToLower(s)) == ToLower(s)
  {
  }

  /** The empty query matches every name, so skipping the filter for it changes nothing; and
      matching ignores ASCII letter case on either side. */
  lemma MatchesProperties(name: string, query: string)
    ensures Matches(name, "")
    ensures Matches(ToLower(name), query) == Matches(name, query)
    ensures Matches(name, ToLower(query)) == Matches(name, query)
  {
    assert OccursAt(ToLower(name), ToLower(""), 0);
    ToLowerIdempotent(name);
    ToLowerIdempotent(query);
  }

  datatype SidebarView = SidebarView(recent: seq<string>, older: seq<string>)

  function Ids(es: seq<Entry>): (ids: seq<string>)
    ensures |ids| == |es| && forall i :: 0 <= i < |es| ==> ids[i] == es[i].0
  {
    seq(|es|, i requires 0 <= i < |es| => es[i].0)
  }

  /** One group as listed: its entries sorted newest first, then searched. */
  function Listed(es: seq<Entry>, now: int, recent: bool, query: string): (r: seq<Entry>)
    requires Searchable(es, query)
    ensures NewestFirst(r)
    ensures forall e :: e in r <==> e in es && IsRecent(e, now) == recent
                                    && (query == "" || Matches(NameOf(e.1).value, query))
    ensures query == "" ==> multiset(r) == multiset(Group(es, now, recent))
  {
    var sorted := SortNewestFirst(Group(es, now, recent));
    assert forall e :: e in sorted <==> e in multiset(Group(es, now, recent));
    assert Searchable(sorted, query);
    SearchKeepsOrder(sorted, query);
    Search(sorted, query)
  }

  /** The two lists of project ids the sidebar shows at time `now` for a search query. */
  function Sidebar(projects: Dict<Project>, now: int, query: string): (v: SidebarView)
    requires Searchable(projects.Entries(), query)
  {
    var es := projects.Entries();
    SidebarView(Ids(Listed(es, now, true, query)), Ids(Listed(es, now, false, query)))
  }

  /** With no query, the two lists hold every entry exactly as often as the store does. */
  lemma SidebarListsEveryProject(projects: Dict<Project>, now: int)
    ensures var es := projects.Entries();
      multiset(Listed(es, now, true, "")) + multiset(Listed(es, now, false, "")) == multiset(es)
  {
    GroupsPartition(projects.Entries(), now);
  }
}
