/** The older manuscript status badge map (src/components/manuscripts/utils/formatters.ts). */
module ManuscriptFormatters {
  import opened Text

  const Green := "bg-green-500/20 text-green-400 border-green-500/30"
  const Blue := "bg-blue-500/20 text-blue-400 border-blue-500/30"
  const Yellow := "bg-yellow-500/20 text-yellow-400 border-yellow-500/30"
  const Gray := "bg-gray-500/20 text-gray-400 border-gray-500/30"
  const Purple := "bg-purple-500/20 text-purple-400 border-purple-500/30"

  /** The map's own entries, keyed by lower-case status. */
  const StatusMap: map<string, string> := map[
    "in_progress" := Green,
    "completed" := Blue,
    "on_hold" := Yellow,
    "draft" := Gray,
    "in progress" := Green]

  /** `getStatusColor`: the class string for the lower-cased status, purple when it has none. */
  function GetStatusColor(status: string): (r: string)
    ensures Lower(status) in StatusMap ==> r == StatusMap[Lower(status)]
    ensures Lower(status) !in StatusMap ==> r == Purple
    ensures r in {Green, Blue, Yellow, Gray, Purple}
  {
    var key := Lower(status);
    if key in StatusMap then StatusMap[key] else Purple
  }

  /** Both spellings of "in progress" share the green classes; the other keys get their own colour. */
  lemma StatusColorTable()
    ensures GetStatusColor("in_progress") == GetStatusColor("in progress") == Green
    ensures GetStatusColor("completed") == Blue
    ensures GetStatusColor("on_hold") == Yellow
    ensures GetStatusColor("draft") == Gray
    ensures GetStatusColor("Draft") == Gray
  {
    LowerOfLower("in_progress");
    LowerOfLower("in progress");
    LowerOfLower("completed");
    LowerOfLower("on_hold");
    LowerOfLower("draft");
    assert Lower("Draft") == "draft";
  }

  /** Only the purple fallback is left for a status outside the map, whatever its case. */
  lemma UnknownIsPurple(status: string)
    requires Lower(status) !in StatusMap.Keys
    ensures GetStatusColor(status) == Purple
    ensures GetStatusColor(status) !in StatusMap.Values
  {
  }
}
