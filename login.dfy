/**
 * The redirect target of `src/pages/AdminLoginPage.tsx`: where the admin
 * goes after signing in, taken from the `next` query parameter only when
 * it is a path on this site.
 */
module AdminLoginPage {
  import opened Options
  import opened JsString

  /** Where the admin lands when no usable `next` is given. */
  const DefaultNext := "/admin/instances"

  /** `parseNextParam`, given the decoded value of `next` (`None` when the
      parameter is absent): a missing or empty value, one not starting with
      `/`, and one starting with `//` (a link to another host) are refused;
      any other is kept as it is. */
  function ParseNextParam(next: Option<string>): (r: Option<string>)
    ensures r.Some? ==> r == next
    ensures r.None? <==> !Filled(next) || !StartsWith(next.value, "/") || StartsWith(next.value, "//")
  {
    if !Filled(next) then None
    else if !StartsWith(next.value, "/") then None
    else if StartsWith(next.value, "//") then None
    else next
  }

  /** A path of this site: one leading slash, not two. */
  predicate LocalPath(p: string)
  {
    |p| >= 1 && p[0] == '/' && (|p| == 1 || p[1] != '/')
  }

  /** `nextPath`. */
  function NextPath(next: Option<string>): (p: string)
    ensures ParseNextParam(next).None? ==> p == DefaultNext
  {
    if ParseNextParam(next).Some? then ParseNextParam(next).value else DefaultNext
  }

  /** The redirect target is always a `LocalPath`: it starts with exactly
      one slash. An accepted `next` is exactly such a path. */
  lemma NoOpenRedirect(next: Option<string>)
    ensures LocalPath(NextPath(next))
    ensures ParseNextParam(next).Some? <==> next.Some? && LocalPath(next.value)
  {
    if next.Some? {
      var v := next.value;
      if |v| >= 1 {
        assert StartsWith(v, "/") <==> v[0] == '/' by {
          assert v[..1] == [v[0]];
        }
      }
      if |v| >= 2 {
        assert StartsWith(v, "//") <==> v[0] == '/' && v[1] == '/' by {
          assert v[..2] == [v[0], v[1]];
        }
      }
    }
    assert DefaultNext[0] == '/' && DefaultNext[1] == 'a';
  }
}
