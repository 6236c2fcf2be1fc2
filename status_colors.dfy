/** The central status colour table with its draft fallback (src/utils/statusColors.ts). */
module StatusColors {
  import opened Wrappers
  import opened Text

  datatype Gradient = Gradient(from: string, to: string)

  datatype Colors = Colors(badge: string, gradient: Gradient, progress: string)

  const CompletedColors := Colors(
    "bg-green-500/20 text-green-400 border-green-500/30",
    Gradient("from-purple-900", "to-indigo-900"), "bg-purple-500")
  const DraftColors := Colors(
    "bg-yellow-500/20 text-yellow-400 border-yellow-500/30",
    Gradient("from-blue-900", "to-cyan-900"), "bg-yellow-500")
  const InProgressColors := Colors(
    "bg-blue-500/20 text-blue-400 border-blue-500/30",
    Gradient("from-blue-900", "to-cyan-900"), "bg-blue-500")

  /** The table's three entries. */
  predicate IsTableEntry(c: Colors) {
    c == CompletedColors || c == DraftColors || c == InProgressColors
  }

  /**
   * `getStatusColors`: looks up the lower-cased status, a missing status
   * reading as `draft`; anything not in the table gets the draft entry.
   */
  function GetStatusColors(status: Option<string>): (r: Colors)
    ensures IsTableEntry(r)
    ensures Lower(status.GetOr("draft")) == "completed" <==> r == CompletedColors
    ensures Lower(status.GetOr("draft")) == "in progress" <==> r == InProgressColors
  {
    var key := Lower(status.GetOr("draft"));
    if key == "completed" then CompletedColors
    else if key == "in progress" then InProgressColors
    else DraftColors
  }

  /** A missing status and an unknown one both get the draft colours. */
  lemma MissingOrUnknownIsDraft(status: string)
    requires Lower(status) != "completed" && Lower(status) != "in progress"
    ensures GetStatusColors(None) == DraftColors
    ensures GetStatusColors(Some(status)) == DraftColors
  {
    assert Lower("draft") == "draft";
  }

  /** Statuses that differ only in letter case get the same colours. */
  lemma CaseInsensitive(s: string, t: string)
    requires |s| == |t| && forall i :: 0 <= i < |s| ==> LowerChar(s[i]) == LowerChar(t[i])
    ensures GetStatusColors(Some(s)) == GetStatusColors(Some(t))
  {
    LowerIgnoresCase(s, t);
  }

  /** `getStatusBadgeClasses`: the badge of the entry `GetStatusColors` picks. */
  function BadgeClasses(status: Option<string>): (r: string)
    ensures r in {CompletedColors.badge, DraftColors.badge, InProgressColors.badge}
    ensures r == CompletedColors.badge <==> Lower(status.GetOr("draft")) == "completed"
    ensures r == InProgressColors.badge <==> Lower(status.GetOr("draft")) == "in progress"
  {
    GetStatusColors(status).badge
  }

  /** `getStatusGradientClasses`: the two gradient classes of the same entry, separated by a space. */
  function GradientClasses(status: Option<string>): (r: string)
    ensures Split(r, ' ') == [GetStatusColors(status).gradient.from, GetStatusColors(status).gradient.to]
  {
    var c := GetStatusColors(status);
    SplitAroundSeparator(c.gradient.from, c.gradient.to, ' ');
    c.gradient.from + " " + c.gradient.to
  }

  /** `getStatusProgressColor`: the progress colour of the entry `GetStatusColors` picks. */
  function ProgressColor(status: Option<string>): (r: string)
    ensures r in {CompletedColors.progress, DraftColors.progress, InProgressColors.progress}
    ensures r == CompletedColors.progress <==> Lower(status.GetOr("draft")) == "completed"
    ensures r == InProgressColors.progress <==> Lower(status.GetOr("draft")) == "in progress"
  {
    GetStatusColors(status).progress
  }

  /** Two separator-free words joined by the separator split back into those two words. */
  lemma {:induction false} SplitAroundSeparator(a: string, b: string, sep: char)
    requires sep !in a && sep !in b && b != []
    ensures Split(a + [sep] + b, sep) == [a, b]
  {
    if a == [] {
      assert a + [sep] + b == [sep] + b;
      SplitWithout(b, sep);
    } else {
      SplitAroundSeparator(a[1..], b, sep);
      assert (a + [sep] + b)[1..] == a[1..] + [sep] + b;
      assert [a[0]] + a[1..] == a;
    }
  }

  /** A string without the separator splits into itself. */
  lemma {:induction false} SplitWithout(s: string, sep: char)
    requires sep !in s
    ensures Split(s, sep) == [s]
  {
    if s != [] {
      SplitWithout(s[1..], sep);
      assert [s[0]] + s[1..] == s;
    }
  }
}
