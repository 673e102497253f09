/** The size limits the bot applies to what it sends back: a listing shows at
    most 50 ids, a summary at most 10 failures, and an error text is cut to
    50 characters. Emoji, Markdown and wording are not modelled. */
module Render {

  /** `/list_banned` shows this many ids at most. */
  const ListLimit: nat := 50
  /** The final unban summary shows this many failures at most. */
  const FailureLimit: nat := 10
  /** `str(e)[:50]`: error texts are cut to this many characters. */
  const ErrorTextLimit: nat := 50

  /** The first part of a list, and how many entries the "... and N more"
      line reports (0 when that line is absent). */
  datatype Page<T> = Page(shown: seq<T>, more: nat)

  /** `s[:limit]` plus `len(s) - limit` when `len(s) > limit`. */
  function Paginate<T>(s: seq<T>, limit: nat): (p: Page<T>)
    ensures |p.shown| == if |s| < limit then |s| else limit
    ensures p.shown == s[..|p.shown|]
    ensures |p.shown| + p.more == |s|
    ensures p.more > 0 <==> |s| > limit
  {
    if |s| <= limit then Page(s, 0) else Page(s[..limit], |s| - limit)
  }

  /** `e[:limit]` on a string. */
  function Clip(e: string, limit: nat): (r: string)
    ensures |r| == if |e| < limit then |e| else limit
    ensures r == e[..|r|]
  {
    if |e| <= limit then e else e[..limit]
  }
}
