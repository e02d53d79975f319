/**
 * The two string enumerations of the review interface that reach a request
 * target: the named review filters (a path segment of `filter/...`) and the
 * review states (joined into the `states` query argument).  Each constructor
 * stands for one literal of the TypeScript union type; `Name` is that literal.
 */
module ReviewTypes {

  datatype ReviewFilter =
    | AllReviews | AllOpenReviews | AllClosedReviews | DraftReviews
    | ToReview | RequireMyApproval | ToSummarize | OutForReview
    | Drafts | Open | Completed | Closed | Trash
  {
    function Name(): (s: string)
      ensures |s| > 0 && 'a' <= s[0] <= 'z'
    {
      match this
      case AllReviews => "allReviews"
      case AllOpenReviews => "allOpenReviews"
      case AllClosedReviews => "allClosedReviews"
      case DraftReviews => "draftReviews"
      case ToReview => "toReview"
      case RequireMyApproval => "requireMyApproval"
      case ToSummarize => "toSummarize"
      case OutForReview => "outForReview"
      case Drafts => "drafts"
      case Open => "open"
      case Completed => "completed"
      case Closed => "closed"
      case Trash => "trash"
    }
  }

  datatype ReviewState =
    | Draft | Approval | Review | Summarize | Closed | Dead | Rejected | Unknown
  {
    function Name(): (s: string)
      ensures |s| > 0 && 'A' <= s[0] <= 'Z'
      ensures ',' !in s
    {
      match this
      case Draft => "Draft"
      case Approval => "Approval"
      case Review => "Review"
      case Summarize => "Summarize"
      case Closed => "Closed"
      case Dead => "Dead"
      case Rejected => "Rejected"
      case Unknown => "Unknown"
    }
  }

  /** Different filters have different names, so each selects its own resource. */
  lemma FilterNamesDistinct(f: ReviewFilter, g: ReviewFilter)
    ensures f.Name() == g.Name() ==> f == g
  {
  }

  /** Different states have different names, so a joined `states` list reads back unambiguously. */
  lemma StateNamesDistinct(s: ReviewState, t: ReviewState)
    ensures s.Name() == t.Name() ==> s == t
  {
  }
}
