/**
 The walk over the art sources in their order, which keeps a title without art apart from
 sources that could not answer.
 */
module ArtFetcher {
  import opened HttpArtSource
  import opened Wrappers

  datatype FetchResult = Hit(source: nat, blob: string) | Miss | Unavailable

  /** What a source that takes the title comes to; none stands for one that does not. */
  type Answer = Option<Result>

  predicate HasArt(a: Answer) {
    a.Some? && a.value.Art? && a.value.blob != ""
  }

  /** The source ended in an exception, whichever it was. */
  predicate CouldNotAnswer(a: Answer) {
    a.Some? && (a.value.SourceUnavailable? || a.value.BodyBroken?)
  }

  /**
   The art is that of the first source that has some, whatever became of those before it. A
   title is missed only when every source that takes it answered; an outage and a broken
   body both make the title unavailable instead.
   */
  method Walk(answers: seq<Answer>) returns (r: FetchResult, asked: nat)
    ensures asked <= |answers|
    ensures forall k :: 0 <= k < asked - 1 ==> !HasArt(answers[k])
    ensures r.Hit? <==> exists k :: 0 <= k < |answers| && HasArt(answers[k])
    ensures r.Hit? ==> asked == r.source + 1 && HasArt(answers[r.source]) && r.blob == answers[r.source].value.blob
    ensures !r.Hit? ==> asked == |answers|
    ensures r.Unavailable? <==> !r.Hit? && exists k :: 0 <= k < |answers| && CouldNotAnswer(answers[k])
  {
    var anyUnavailable := false;
    for i := 0 to |answers|
      invariant forall k :: 0 <= k < i ==> !HasArt(answers[k])
      invariant anyUnavailable <==> exists k :: 0 <= k < i && CouldNotAnswer(answers[k])
    {
      var answer := answers[i];
      if answer.None? {
        continue;
      }
      match answer.value
      case Art(blob) =>
        if blob != "" {
          return Hit(i, blob), i + 1;
        }
      case NoArt =>
      case SourceUnavailable => anyUnavailable := true;
      case BodyBroken => anyUnavailable := true;
    }
    return if anyUnavailable then Unavailable else Miss, |answers|;
  }
}
