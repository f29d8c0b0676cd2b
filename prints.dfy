/**
 * `src/pages/AdminPrintsPage.tsx`: the instance search, the selection
 * (toggle, select all, clear) and the link to the print preview.
 */
module PrintsPage {
  import opened Options
  import opened JsString
  import opened Seqs
  import opened AdminData
  import AttendanceSheetsPage
  import PrintPreviewPage

  /** `filtered`: the query lower-cased and split at whitespace runs, then
      the token search. */
  function Filtered(instances: seq<AdminInstance>, query: string): (r: seq<AdminInstance>)
    ensures Words(Lower(query)) == [] ==> r == instances
    ensures forall it :: it in r <==> it in instances && ContainsAll(NameIdHay(it), Words(Lower(query)))
  {
    TokenFilter(instances, Words(Lower(query)))
  }

  /** This page does not trim first, but its tokens, and so its matches,
      are those of the attendance-sheet page. */
  lemma SameSearchAsSheets(instances: seq<AdminInstance>, query: string)
    ensures Filtered(instances, query) == AttendanceSheetsPage.Filtered(Some(instances), query)
  {
    WordsOfLowerTrim(query);
  }

  /** The search keeps the list's order. */
  lemma FilteredKeepsOrder(a: seq<AdminInstance>, b: seq<AdminInstance>, query: string)
    ensures Filtered(a + b, query) == Filtered(a, query) + Filtered(b, query)
  {
    TokenFilterConcat(a, b, Words(Lower(query)));
  }

  // ------------------------------------------------------------ selection

  /** `toggle`: a selected id is removed, every occurrence of it; another is
      appended. */
  function Toggle(prev: seq<string>, id: string): (next: seq<string>)
    ensures id in prev ==> id !in next && forall x :: x != id ==> (x in next <==> x in prev)
    ensures id !in prev ==> next == prev + [id]
  {
    if id in prev then Filter(prev, (x: string) => x != id) else prev + [id]
  }

  /** The other ids keep their order when one is removed. */
  lemma ToggleOffKeepsOrder(a: seq<string>, b: seq<string>, id: string)
    requires id in a + b
    ensures Toggle(a + b, id) == Filter(a, (x: string) => x != id) + Filter(b, (x: string) => x != id)
  {
    FilterConcat(a, b, (x: string) => x != id);
  }

  /** Toggling one id twice restores which ids are selected, and a
      selection without duplicates never gains one. */
  lemma ToggleTwice(prev: seq<string>, id: string)
    ensures forall x :: x in Toggle(Toggle(prev, id), id) <==> x in prev
    ensures NoDuplicates(prev) ==> NoDuplicates(Toggle(prev, id)) && NoDuplicates(Toggle(Toggle(prev, id), id))
  {
    if NoDuplicates(prev) {
      ToggleKeepsNoDuplicates(prev, id);
      ToggleKeepsNoDuplicates(Toggle(prev, id), id);
    }
  }

  lemma ToggleKeepsNoDuplicates(prev: seq<string>, id: string)
    requires NoDuplicates(prev)
    ensures NoDuplicates(Toggle(prev, id))
  {
    if id in prev {
      FilterKeepsNoDuplicates(prev, (x: string) => x != id);
    } else {
      var next := prev + [id];
      forall i, j | 0 <= i < j < |next| ensures next[i] != next[j] {
        if j == |prev| {
          assert next[i] == prev[i] && prev[i] in prev;
        }
      }
    }
  }

  /** `selectAll`: exactly the ids of the listed instances, in list order. */
  function SelectAll(filtered: seq<AdminInstance>): (ids: seq<string>)
    ensures |ids| == |filtered| && forall k :: 0 <= k < |ids| ==> ids[k] == filtered[k].id
  {
    IdsOf(filtered)
  }

  /** `clearAll`. */
  function ClearAll(): seq<string>
  {
    []
  }

  /** After clearing, one toggle selects exactly that id; after selecting
      all, toggling a listed id unselects it. */
  lemma SelectionSteps(filtered: seq<AdminInstance>, k: nat)
    requires k < |filtered|
    ensures Toggle(ClearAll(), filtered[k].id) == [filtered[k].id]
    ensures filtered[k].id !in Toggle(SelectAll(filtered), filtered[k].id)
  {
    assert SelectAll(filtered)[k] == filtered[k].id;
  }

  // --------------------------------------------------------------- submit

  /** The preview link: `/admin/tisky/preview?type=…&month=…&ids=…`, with
      the ids joined by commas. */
  datatype PreviewLink = PreviewLink(docType: PrintPreviewPage.DocType, month: string, ids: string)

  /** `onSubmit`: no link without a month or a selected id. */
  function OnSubmit(docType: PrintPreviewPage.DocType, month: string, selectedIds: seq<string>): (r: Option<PreviewLink>)
    ensures r.None? <==> month == "" || selectedIds == []
    ensures r.Some? ==> r.value.docType == docType && r.value.month == month
  {
    if month == "" || |selectedIds| == 0 then None
    else Some(PreviewLink(docType, month, Join(selectedIds, ",")))
  }

  /** The preview page reads back from the link the document type and,
      when every selected id is a non-empty trimmed text without a comma,
      exactly the selected ids in their order. */
  lemma PreviewReadsLink(docType: PrintPreviewPage.DocType, month: string, selectedIds: seq<string>)
    requires month != "" && selectedIds != []
    requires PrintPreviewPage.CleanIds(selectedIds)
    ensures var link := OnSubmit(docType, month, selectedIds).value;
      PrintPreviewPage.DocTypeOf(Some(PrintPreviewPage.DocTypeText(link.docType))) == docType
      && PrintPreviewPage.IdList(Some(link.ids)) == selectedIds
  {
    IdListOfJoin(selectedIds);
  }

  /** Comma-joined ids that are non-empty, trimmed and free of commas are
      read back as those ids. */
  lemma IdListOfJoin(ids: seq<string>)
    requires ids != []
    requires PrintPreviewPage.CleanIds(ids)
    ensures PrintPreviewPage.IdList(Some(Join(ids, ","))) == ids
  {
    PrintPreviewPage.CommaJoinSplits(ids);
    PrintPreviewPage.IdListOfCleanPieces(Join(ids, ","), ids);
  }
}
