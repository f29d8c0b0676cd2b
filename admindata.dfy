/**
 * The instance records the admin pages list (`AdminInstance` in
 * `src/api/admin.ts`) and the token search the attendance-sheet and print
 * pages run over them.
 */
module AdminData {
  import opened Options
  import opened JsString
  import opened Seqs
  import opened DayCalc

  datatype InstanceStatus = PENDING | ACTIVE | REVOKED | DEACTIVATED

  function StatusText(s: InstanceStatus): string
  {
    match s
    case PENDING => "PENDING"
    case ACTIVE => "ACTIVE"
    case REVOKED => "REVOKED"
    case DEACTIVATED => "DEACTIVATED"
  }

  datatype ClientType = ANDROID | WEB

  function ClientTypeText(t: ClientType): string
  {
    if t == ANDROID then "ANDROID" else "WEB"
  }

  /** An instance as the admin API lists it; `createdAt` is the time value
      `new Date(created_at).getTime()` reads from the timestamp. */
  datatype AdminInstance = AdminInstance(
    id: string,
    clientType: ClientType,
    status: InstanceStatus,
    displayName: Option<string>,
    profileInstanceId: Option<string>,
    createdAt: int,
    employmentTemplate: Template)

  /** `rows.map((r) => r.id)`. */
  function IdsOf(rs: seq<AdminInstance>): (ids: seq<string>)
    ensures |ids| == |rs|
    ensures forall k :: 0 <= k < |rs| ==> ids[k] == rs[k].id
  {
    if rs == [] then [] else [rs[0].id] + IdsOf(rs[1..])
  }

  /** `` `${it.display_name ?? ""} ${it.id}`.toLowerCase() ``. */
  function NameIdHay(it: AdminInstance): string
  {
    Lower(OrEmpty(it.displayName) + " " + it.id)
  }

  /** `tokens.every((t) => hay.includes(t))`. */
  predicate ContainsAll(hay: string, tokens: seq<string>)
  {
    forall k :: 0 <= k < |tokens| ==> Includes(hay, tokens[k])
  }

  /** The token search: no tokens keeps the list, otherwise the instances
      whose name-and-id text contains every token. */
  function TokenFilter(list: seq<AdminInstance>, tokens: seq<string>): (r: seq<AdminInstance>)
    ensures tokens == [] ==> r == list
    ensures forall it :: it in r <==> it in list && ContainsAll(NameIdHay(it), tokens)
  {
    if tokens == [] then list else Filter(list, it => ContainsAll(NameIdHay(it), tokens))
  }

  /** The search keeps the list's order: it is a filter, whatever the tokens. */
  lemma TokenFilterConcat(a: seq<AdminInstance>, b: seq<AdminInstance>, tokens: seq<string>)
    ensures TokenFilter(a + b, tokens) == TokenFilter(a, tokens) + TokenFilter(b, tokens)
  {
    if tokens != [] {
      FilterConcat(a, b, it => ContainsAll(NameIdHay(it), tokens));
    }
  }
}
