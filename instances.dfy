/**
 * The list logic of `src/pages/AdminInstancesPage.tsx`: the display-name
 * normaliser and the guard built on it, the status counts, the text
 * search, the pending and main lists with their ordering, merge
 * selection and the merge source list.
 */
module InstancesPage {
  import opened Options
  import opened JsString
  import opened Seqs
  import opened DayCalc
  import opened AdminData

  // ------------------------------------------------------ display names

  /** `s.replace(/\s+/g, " ")`: every maximal run of whitespace becomes one
      space. */
  function CollapseSpaces(s: string): (r: string)
    ensures |r| <= |s|
    ensures r == [] <==> s == []
    ensures r != [] ==> (IsSpace(r[0]) <==> IsSpace(s[0]))
    ensures r != [] && !IsSpace(s[0]) ==> r[0] == s[0]
    ensures forall i :: 0 <= i < |r| && IsSpace(r[i]) ==> r[i] == ' '
    ensures forall i :: 0 <= i < |r| - 1 ==> !(IsSpace(r[i]) && IsSpace(r[i + 1]))
    decreases |s|
  {
    if s == [] then []
    else if IsSpace(s[0]) then
      var rest := CollapseSpaces(TrimStart(s));
      assert IsSpace(' ');
      [' '] + rest
    else [s[0]] + CollapseSpaces(s[1..])
  }

  /** Collapsing starts by copying the leading word unchanged. */
  lemma {:induction false} CollapseLeadingWord(s: string)
    ensures CollapseSpaces(s) == LeadingWord(s) + CollapseSpaces(s[|LeadingWord(s)|..])
    decreases |s|
  {
    if s != [] && !IsSpace(s[0]) {
      var w := LeadingWord(s[1..]);
      var tail := s[1..][|w|..];
      CollapseLeadingWord(s[1..]);
      assert CollapseSpaces(s) == [s[0]] + CollapseSpaces(s[1..]);
      assert LeadingWord(s) == [s[0]] + w;
      assert tail == s[1 + |w|..];
      Associative([s[0]], w, CollapseSpaces(tail));
    }
  }

  /** The whitespace between two words collapses to one space, and the
      words after it are the words of the text that follows the gap. */
  lemma CollapseGap(rest: string)
    requires rest != [] && IsSpace(rest[0]) && !IsSpace(rest[|rest| - 1])
    ensures var d := TrimStart(rest);
      d != [] && Trimmed(d) && |d| < |rest| && Words(d) != []
      && CollapseSpaces(rest) == " " + CollapseSpaces(d) && Words(rest) == Words(d)
  {
    var d := TrimStart(rest);
    assert !AllSpace(rest[..|rest|]) by {
      assert rest[..|rest|] == rest;
    }
    assert d != [];
    assert d[|d| - 1] == rest[|rest| - 1];
    WordsTrimStart(rest);
    WordsAllSpace(d);
  }

  lemma JoinCons(w: string, ws: seq<string>, sep: string)
    requires ws != []
    ensures Join([w] + ws, sep) == w + (sep + Join(ws, sep))
  {
    assert ([w] + ws)[1..] == ws;
    Associative(w, sep, Join(ws, sep));
  }

  /** On text with no whitespace at either end, collapsing the whitespace
      runs is the same as joining the words with single spaces. */
  lemma {:induction false} CollapseTrimmedIsJoin(t: string)
    requires Trimmed(t)
    ensures CollapseSpaces(t) == Join(Words(t), " ")
    decreases |t|
  {
    if t != [] {
      var w := LeadingWord(t);
      var rest := t[|w|..];
      CollapseLeadingWord(t);
      assert Words(t) == [w] + Words(rest);
      if rest == [] {
        assert CollapseSpaces(t) == w;
      } else {
        assert rest[|rest| - 1] == t[|t| - 1];
        CollapseGap(rest);
        var d := TrimStart(rest);
        CollapseTrimmedIsJoin(d);
        JoinCons(w, Words(d), " ");
      }
    }
  }

  /** `normDisplayName`: trimmed, whitespace runs collapsed, cut to 120
      UTF-16 units. */
  function NormDisplayName(v: string): (r: string)
  {
    var c := CollapseSpaces(Trim(v));
    if |c| <= 120 then c else c[..120]
  }

  /** The normalised name is at most 120 long, starts with no whitespace,
      has only single plain spaces between its words, and is empty exactly
      when the input is blank. */
  lemma NormDisplayNameSpec(v: string)
    ensures |NormDisplayName(v)| <= 120
    ensures NormDisplayName(v) == [] || !IsSpace(NormDisplayName(v)[0])
    ensures forall i :: 0 <= i < |NormDisplayName(v)| && IsSpace(NormDisplayName(v)[i]) ==> NormDisplayName(v)[i] == ' '
    ensures forall i :: 0 <= i < |NormDisplayName(v)| - 1 ==>
      !(IsSpace(NormDisplayName(v)[i]) && IsSpace(NormDisplayName(v)[i + 1]))
    ensures NormDisplayName(v) == [] <==> AllSpace(v)
    ensures var j := Join(Words(v), " "); NormDisplayName(v) == if |j| <= 120 then j else j[..120]
  {
    TrimEmptyIffAllSpace(v);
    var t := Trim(v);
    PrefixKeepsSpacing(CollapseSpaces(t), 120);
    CollapseTrimmedIsJoin(t);
    WordsOfTrim(v);
  }

  /** Cutting a text short keeps what the normaliser promises of it. */
  lemma PrefixKeepsSpacing(c: string, n: nat)
    requires n > 0
    requires forall i :: 0 <= i < |c| && IsSpace(c[i]) ==> c[i] == ' '
    requires forall i :: 0 <= i < |c| - 1 ==> !(IsSpace(c[i]) && IsSpace(c[i + 1]))
    ensures var r := if |c| <= n then c else c[..n];
      |r| <= n && (c == [] <==> r == []) && (r != [] ==> r[0] == c[0])
      && (forall i :: 0 <= i < |r| && IsSpace(r[i]) ==> r[i] == ' ')
      && (forall i :: 0 <= i < |r| - 1 ==> !(IsSpace(r[i]) && IsSpace(r[i + 1])))
  {
  }

  /** What `doActivate` and `doRename` do with the name typed in the modal. */
  datatype NameStep =
    | NoInstance                                          // nothing selected: return
    | NameMissing(message: string)                        // the modal error, no API call
    | NameSubmitted(id: string, name: string)             // the API call with the normalised name

  const NameMissingMessage := "Vyplňte jméno a příjmení."

  /** The guard shared by `doActivate` and `doRename`. */
  function NameGuard(selected: Option<AdminInstance>, displayName: string): (r: NameStep)
    ensures selected.None? <==> r.NoInstance?
    ensures r.NameMissing? <==> selected.Some? && AllSpace(displayName)
    ensures r.NameMissing? ==> r.message == NameMissingMessage
    ensures r.NameSubmitted? ==> r.id == selected.value.id && r.name != [] && |r.name| <= 120
    ensures r.NameSubmitted? ==> r.name == NormDisplayName(displayName)
  {
    NormDisplayNameSpec(displayName);
    if selected.None? then NoInstance
    else
      var name := NormDisplayName(displayName);
      if name == "" then NameMissing(NameMissingMessage) else NameSubmitted(selected.value.id, name)
  }

  // ------------------------------------------------------------- counts

  datatype Counts = Counts(all: nat, pending: nat, active: nat, revoked: nat, deactivated: nat)

  function RowsOrEmpty(rows: Option<seq<AdminInstance>>): seq<AdminInstance>
  {
    if rows.Some? then rows.value else []
  }

  /** The number of rows with status `s`. */
  function CountOf(rows: seq<AdminInstance>, s: InstanceStatus): (n: nat)
    ensures n <= |rows|
  {
    |Filter(rows, (r: AdminInstance) => r.status == s)|
  }

  lemma CountOfSnoc(rows: seq<AdminInstance>, r: AdminInstance, s: InstanceStatus)
    ensures CountOf(rows + [r], s) == CountOf(rows, s) + (if r.status == s then 1 else 0)
  {
    var p := (x: AdminInstance) => x.status == s;
    FilterConcat(rows, [r], p);
    assert Filter([r], p) == (if p(r) then [r] else []) + Filter([], p);
  }

  /** `counts`: one pass over the rows adding one to the row's status. */
  method CountRows(rows: Option<seq<AdminInstance>>) returns (c: Counts)
    ensures c.all == |RowsOrEmpty(rows)|
    ensures c.pending == CountOf(RowsOrEmpty(rows), PENDING) && c.active == CountOf(RowsOrEmpty(rows), ACTIVE)
    ensures c.revoked == CountOf(RowsOrEmpty(rows), REVOKED) && c.deactivated == CountOf(RowsOrEmpty(rows), DEACTIVATED)
    ensures c.all == c.pending + c.active + c.revoked + c.deactivated
  {
    var all := RowsOrEmpty(rows);
    c := Counts(|all|, 0, 0, 0, 0);
    for i := 0 to |all|
      invariant c.all == |all|
      invariant c.pending == CountOf(all[..i], PENDING) && c.active == CountOf(all[..i], ACTIVE)
      invariant c.revoked == CountOf(all[..i], REVOKED) && c.deactivated == CountOf(all[..i], DEACTIVATED)
      invariant i == c.pending + c.active + c.revoked + c.deactivated
    {
      var r := all[i];
      assert all[..i + 1] == all[..i] + [r];
      CountOfSnoc(all[..i], r, PENDING);
      CountOfSnoc(all[..i], r, ACTIVE);
      CountOfSnoc(all[..i], r, REVOKED);
      CountOfSnoc(all[..i], r, DEACTIVATED);
      match r.status {
        case PENDING => c := c.(pending := c.pending + 1);
        case ACTIVE => c := c.(active := c.active + 1);
        case REVOKED => c := c.(revoked := c.revoked + 1);
        case DEACTIVATED => c := c.(deactivated := c.deactivated + 1);
      }
    }
    assert all[..|all|] == all;
  }

  // -------------------------------------------------------------- search

  /** `[r.id, r.display_name ?? "", r.client_type, r.status].join(" ").toLowerCase()`. */
  function RowHay(r: AdminInstance): string
  {
    Lower(Join([r.id, OrEmpty(r.displayName), ClientTypeText(r.clientType), StatusText(r.status)], " "))
  }

  /** `queryFiltered`: all rows for a blank query, else the rows whose text
      contains the trimmed, lower-cased query. */
  function QueryFiltered(rows: Option<seq<AdminInstance>>, query: string): (r: seq<AdminInstance>)
  {
    var q := Lower(Trim(query));
    if q == "" then RowsOrEmpty(rows) else Filter(RowsOrEmpty(rows), row => Includes(RowHay(row), q))
  }

  /** A blank query keeps every row; otherwise exactly the rows whose text
      holds the query are kept, in their order. */
  lemma QueryFilteredSpec(list: seq<AdminInstance>, query: string)
    ensures AllSpace(query) ==> QueryFiltered(Some(list), query) == list
    ensures !AllSpace(query) ==>
      forall r :: r in QueryFiltered(Some(list), query) <==> r in list && Includes(RowHay(r), Lower(Trim(query)))
    ensures forall a, b :: QueryFiltered(Some(a + b), query) == QueryFiltered(Some(a), query) + QueryFiltered(Some(b), query)
  {
    TrimEmptyIffAllSpace(query);
    var q := Lower(Trim(query));
    assert q == "" <==> Trim(query) == "";
    forall a, b ensures QueryFiltered(Some(a + b), query) == QueryFiltered(Some(a), query) + QueryFiltered(Some(b), query) {
      if q != "" {
        FilterConcat(a, b, row => Includes(RowHay(row), q));
      }
    }
  }

  // ------------------------------------------------------------ ordering

  /** `prio` of `filtered`'s comparator. */
  function Priority(s: InstanceStatus): (p: int)
    ensures 0 <= p <= 2
    ensures p == 0 <==> s == ACTIVE
    ensures p == 1 <==> s == DEACTIVATED
  {
    if s == ACTIVE then 0 else if s == DEACTIVATED then 1 else 2
  }

  /** The comparator is at most 0: `a` may stand before `b`. With
      `byPriority` it is `filtered`'s (priority, then newest first);
      without, `pending`'s (newest first). */
  predicate Before(byPriority: bool, a: AdminInstance, b: AdminInstance)
  {
    if byPriority && Priority(a.status) != Priority(b.status) then Priority(a.status) < Priority(b.status)
    else a.createdAt >= b.createdAt
  }

  predicate SortedBy(byPriority: bool, xs: seq<AdminInstance>)
  {
    forall i, j :: 0 <= i < j < |xs| ==> Before(byPriority, xs[i], xs[j])
  }

  /** Put `x` before the first element it may precede: an element that
      compares equal keeps `x` in front, as the stable `sort` does. */
  function Insert(byPriority: bool, x: AdminInstance, xs: seq<AdminInstance>): (r: seq<AdminInstance>)
    requires SortedBy(byPriority, xs)
    ensures SortedBy(byPriority, r)
    ensures multiset(r) == multiset(xs) + multiset{x}
    decreases |xs|
  {
    if xs == [] then [x]
    else if Before(byPriority, x, xs[0]) then [x] + xs
    else
      var rest := Insert(byPriority, x, xs[1..]);
      SortedTail(byPriority, xs);
      InsertBehind(byPriority, xs[0], x, xs[1..], rest);
      assert xs == [xs[0]] + xs[1..];
      [xs[0]] + rest
  }

  lemma SortedTail(byPriority: bool, xs: seq<AdminInstance>)
    requires xs != [] && SortedBy(byPriority, xs)
    ensures SortedBy(byPriority, xs[1..])
    ensures forall k :: 0 <= k < |xs[1..]| ==> Before(byPriority, xs[0], xs[1..][k])
  {
    assert forall k :: 0 <= k < |xs[1..]| ==> xs[1..][k] == xs[k + 1];
  }

  /** An element that may stand before `x` and before every element of
      `tail` may stand before their sorted merge `rest`. */
  lemma InsertBehind(byPriority: bool, h: AdminInstance, x: AdminInstance, tail: seq<AdminInstance>, rest: seq<AdminInstance>)
    requires !Before(byPriority, x, h)
    requires forall k :: 0 <= k < |tail| ==> Before(byPriority, h, tail[k])
    requires SortedBy(byPriority, rest) && multiset(rest) == multiset(tail) + multiset{x}
    ensures SortedBy(byPriority, [h] + rest)
  {
    forall j | 0 <= j < |rest| ensures Before(byPriority, h, rest[j]) {
      assert rest[j] in multiset(rest);
      if rest[j] != x {
        assert rest[j] in multiset(tail);
        var k :| 0 <= k < |tail| && tail[k] == rest[j];
      }
    }
    var r := [h] + rest;
    forall i, j | 0 <= i < j < |r| ensures Before(byPriority, r[i], r[j]) {
      if i == 0 {
        assert r[j] == rest[j - 1];
      } else {
        assert r[i] == rest[i - 1] && r[j] == rest[j - 1];
      }
    }
  }

  /** `Array.prototype.sort` with the comparator: an insertion sort, which
      like the library's sort is stable. */
  function SortRows(byPriority: bool, xs: seq<AdminInstance>): (r: seq<AdminInstance>)
    ensures SortedBy(byPriority, r)
    ensures multiset(r) == multiset(xs)
  {
    if xs == [] then []
    else
      assert xs == [xs[0]] + xs[1..];
      Insert(byPriority, xs[0], SortRows(byPriority, xs[1..]))
  }

  /** The status tab of the main list. */
  datatype StatusFilter = AllStatuses | OnlyStatus(status: InstanceStatus)

  predicate IsPending(r: AdminInstance) { r.status == PENDING }

  predicate NotPending(r: AdminInstance) { r.status != PENDING }

  /** The status tab admits the row. */
  predicate InTab(statusFilter: StatusFilter, r: AdminInstance)
  {
    statusFilter.AllStatuses? || r.status == statusFilter.status
  }

  /** `pending`: the pending rows of the search, newest first. */
  function Pending(queryFiltered: seq<AdminInstance>): seq<AdminInstance>
  {
    SortRows(false, Filter(queryFiltered, IsPending))
  }

  /** `filtered`: the other rows of the search, narrowed to the status tab,
      active first, then deactivated, then the rest, newest first within
      each. */
  function Filtered(queryFiltered: seq<AdminInstance>, statusFilter: StatusFilter): seq<AdminInstance>
  {
    var notPending := Filter(queryFiltered, NotPending);
    SortRows(true, Filter(notPending, r => InTab(statusFilter, r)))
  }

  /** `pending` holds exactly the pending rows of the search, as often as
      the search has them, newest first. */
  lemma PendingSpec(queryFiltered: seq<AdminInstance>)
    ensures multiset(Pending(queryFiltered)) == multiset(Filter(queryFiltered, IsPending))
    ensures forall r :: r in Pending(queryFiltered) <==> r in queryFiltered && r.status == PENDING
    ensures forall i, j :: 0 <= i < j < |Pending(queryFiltered)| ==>
      Pending(queryFiltered)[i].createdAt >= Pending(queryFiltered)[j].createdAt
  {
    var p := Pending(queryFiltered);
    forall r ensures r in p <==> r in queryFiltered && r.status == PENDING {
      assert r in p <==> r in multiset(p);
    }
  }

  /** `filtered` holds no pending row, keeps to the status tab, has every
      other row of the search that the tab admits, and is ordered by
      priority, then newest first. */
  lemma FilteredSpec(queryFiltered: seq<AdminInstance>, statusFilter: StatusFilter)
    ensures forall r :: r in Filtered(queryFiltered, statusFilter) <==>
      r in queryFiltered && r.status != PENDING && (statusFilter.AllStatuses? || r.status == statusFilter.status)
    ensures forall i, j :: 0 <= i < j < |Filtered(queryFiltered, statusFilter)| ==>
      var a, b := Filtered(queryFiltered, statusFilter)[i], Filtered(queryFiltered, statusFilter)[j];
      Priority(a.status) < Priority(b.status) || (Priority(a.status) == Priority(b.status) && a.createdAt >= b.createdAt)
  {
    var f := Filtered(queryFiltered, statusFilter);
    forall r ensures r in f <==>
      r in queryFiltered && r.status != PENDING && (statusFilter.AllStatuses? || r.status == statusFilter.status) {
      assert r in f <==> r in multiset(f);
    }
  }

  /** With the "all" tab, every row of the search is in exactly one of the
      two lists, as often as the search holds it. */
  lemma ListsPartitionSearch(queryFiltered: seq<AdminInstance>)
    ensures multiset(Pending(queryFiltered)) + multiset(Filtered(queryFiltered, AllStatuses)) == multiset(queryFiltered)
  {
    FilterPartition(queryFiltered, IsPending, NotPending);
    AllTabKeepsAll(queryFiltered);
  }

  lemma AllTabKeepsAll(queryFiltered: seq<AdminInstance>)
    ensures multiset(Filtered(queryFiltered, AllStatuses)) == multiset(Filter(queryFiltered, NotPending))
  {
    var notPending := Filter(queryFiltered, NotPending);
    var statusFilter := AllStatuses;
    FilterKeepsAll(notPending, r => InTab(statusFilter, r));
  }

  // ------------------------------------------------------------ selection

  /** `isMergeSelectable`: an active instance not yet merged into a profile. */
  predicate IsMergeSelectable(r: AdminInstance)
  {
    r.status == ACTIVE && !Filled(r.profileInstanceId)
  }

  /** A row whose box can be checked is never in the pending list; it is in
      the main list on the "all" tab and on the ACTIVE tab, and on no other
      status tab. */
  lemma MergeSelectableListed(queryFiltered: seq<AdminInstance>, r: AdminInstance)
    requires r in queryFiltered && IsMergeSelectable(r)
    ensures r !in Pending(queryFiltered)
    ensures r in Filtered(queryFiltered, AllStatuses) && r in Filtered(queryFiltered, OnlyStatus(ACTIVE))
    ensures forall s :: s != ACTIVE ==> r !in Filtered(queryFiltered, OnlyStatus(s))
  {
    PendingSpec(queryFiltered);
    FilteredSpec(queryFiltered, AllStatuses);
    FilteredSpec(queryFiltered, OnlyStatus(ACTIVE));
    forall s | s != ACTIVE
      ensures r !in Filtered(queryFiltered, OnlyStatus(s))
    {
      FilteredSpec(queryFiltered, OnlyStatus(s));
    }
  }

  /** `toggleSelection`: the id is in the selection exactly when its box is
      checked; no other id changes. */
  function ToggleSelection(prev: set<string>, id: string, checked: bool): (next: set<string>)
    ensures id in next <==> checked
    ensures forall other :: other != id ==> (other in next <==> other in prev)
  {
    if checked then prev + {id} else prev - {id}
  }

  /** `selectedRows`: the rows whose id is selected, in list order. */
  function SelectedRows(rows: Option<seq<AdminInstance>>, selectedIds: set<string>): (r: seq<AdminInstance>)
    ensures forall x :: x in r <==> x in RowsOrEmpty(rows) && x.id in selectedIds
  {
    Filter(RowsOrEmpty(rows), (x: AdminInstance) => x.id in selectedIds)
  }

  /** What `doMerge` does. */
  datatype MergeStep =
    | MergeSkipped                                       // no target: return
    | MergeRefused(message: string)                      // no source: the error, no call
    | MergeCall(target: string, sources: seq<string>)    // `adminMergeInstances(target, sources)`

  const NoSourceMessage := "Vyberte cilovou instanci i alespon jeden zdroj."

  /** `doMerge`: the sources are the selected rows' ids other than the
      target, in list order. */
  function DoMerge(selectedRows: seq<AdminInstance>, mergeTargetId: Option<string>): (r: MergeStep)
    ensures r.MergeSkipped? <==> !Filled(mergeTargetId)
    ensures r.MergeRefused? <==> Filled(mergeTargetId) && forall x :: x in selectedRows ==> x.id == mergeTargetId.value
    ensures r.MergeRefused? ==> r.message == NoSourceMessage
    ensures r.MergeCall? ==> r.target == mergeTargetId.value && r.sources != []
    ensures r.MergeCall? ==> forall id :: id in r.sources <==> id != r.target && exists x :: x in selectedRows && x.id == id
  {
    if !Filled(mergeTargetId) then MergeSkipped
    else
      var target := mergeTargetId.value;
      var ids := IdsOf(selectedRows);
      var sources := Filter(ids, id => id != target);
      assert forall id :: id in ids <==> exists x :: x in selectedRows && x.id == id by {
        forall id ensures id in ids <==> exists x :: x in selectedRows && x.id == id {
          if id in ids {
            var k :| 0 <= k < |ids| && ids[k] == id;
            assert selectedRows[k] in selectedRows;
          }
          if exists x :: x in selectedRows && x.id == id {
            var x :| x in selectedRows && x.id == id;
            var k :| 0 <= k < |selectedRows| && selectedRows[k] == x;
            assert ids[k] == id;
          }
        }
      }
      if |sources| == 0 then
        assert forall x :: x in selectedRows ==> x.id == target by {
          forall x | x in selectedRows ensures x.id == target {
            assert x.id in ids && x.id !in sources;
          }
        }
        MergeRefused(NoSourceMessage)
      else
        assert exists x :: x in selectedRows && x.id != target by {
          assert sources[0] in sources;
        }
        MergeCall(target, sources)
  }
  /** The sources keep the selection's order: the sources of two runs of
      selected rows are those of the first run followed by those of the
      second (a run with no source adds none). */
  lemma DoMergeConcat(a: seq<AdminInstance>, b: seq<AdminInstance>, mergeTargetId: Option<string>)
    requires DoMerge(a + b, mergeTargetId).MergeCall?
    ensures DoMerge(a + b, mergeTargetId).sources ==
      (if DoMerge(a, mergeTargetId).MergeCall? then DoMerge(a, mergeTargetId).sources else [])
      + (if DoMerge(b, mergeTargetId).MergeCall? then DoMerge(b, mergeTargetId).sources else [])
  {
    var target := mergeTargetId.value;
    var p := (id: string) => id != target;
    IdsOfConcat(a, b);
    FilterConcat(IdsOf(a), IdsOf(b), p);
  }

  /** A single selected row other than the target is the one source. */
  lemma DoMergeOne(x: AdminInstance, mergeTargetId: Option<string>)
    requires Filled(mergeTargetId) && x.id != mergeTargetId.value
    ensures DoMerge([x], mergeTargetId) == MergeCall(mergeTargetId.value, [x.id])
  {
    assert IdsOf([x]) == [x.id];
  }

  lemma IdsOfConcat(a: seq<AdminInstance>, b: seq<AdminInstance>)
    ensures IdsOf(a + b) == IdsOf(a) + IdsOf(b)
  {
  }

}
