/**
 What the server remembers about one title, and how requests, identify writes, fetches,
 eviction and pruning change it. A fetch is two steps, because an identify write may land
 between the start of the upstream walk and the saving of its outcome.
 */
module ArtRecords {
  import opened Text
  import opened Wrappers

  /** Seconds to wait after a miss, and after an outage. */
  const NEGATIVE_CACHE_DURATION := 12 * 60 * 60
  const TRANSIENT_FAILURE_BACKOFF := 5 * 60

  datatype ArtRecord = ArtRecord(
    serial: Option<string>, canonicalName: Option<string>, title: Option<string>, regionId: Option<string>,
    artName: Option<string>, sha256: Option<string>, sourceUrl: Option<string>, contentType: Option<string>,
    source: Option<string>, missUntil: Option<int>)

  const EMPTY := ArtRecord(None, None, None, None, None, None, None, None, None, None)

  datatype RomIdentity = RomIdentity(
    serial: Option<string>, canonicalName: Option<string>, artName: Option<string>,
    title: Option<string>, regionId: Option<string>, isMatched: bool)

  /** An index row, as far as building an identity reads it. */
  datatype IndexRow = IndexRow(name: string, artName: Option<string>)

  datatype Fetched = Hit(sha256: string, sourceUrl: string, contentType: string, source: string) | Miss | Unavailable

  // ----- One identity, one record

  predicate IsNameDigest(key: string) {
    |key| == 16 && forall c :: c in key ==> '0' <= c <= '9' || 'a' <= c <= 'f'
  }

  /** The most authoritative value of each field: record, caller, index row, and the key itself. */
  function BuildIdentity(key: string, record: Option<ArtRecord>, resolved: Option<RomIdentity>,
                         lookup: string -> Option<IndexRow>): RomIdentity
  {
    var r := if record.Some? then record.value else EMPTY;
    var known := if resolved.Some? then resolved.value else RomIdentity(None, None, None, None, None, false);
    var serial := r.serial.Or(known.serial).Or(if IsNameDigest(key) then None else Some(key));
    var canonicalName, artName := r.canonicalName.Or(known.canonicalName), known.artName.Or(r.artName);
    var row := if (canonicalName.None? || artName.None?) && serial.Some? then lookup(serial.value) else None;
    RomIdentity(serial,
                canonicalName.Or(if row.Some? then Some(row.value.name) else None),
                artName.Or(if row.Some? then row.value.artName else None),
                r.title, if NonEmpty(r.regionId) then Some(r.regionId.value[..1]) else None, key != [])
  }

  /** The serial to store: none when it is no more than the key again. */
  function LearnedSerial(key: string, identity: RomIdentity): Option<string> {
    if identity.serial.Some? && ToUpper(identity.serial.value) == ToUpper(key) then None else identity.serial
  }

  predicate NonEmpty(o: Option<string>) {
    o.Some? && o.value != []
  }

  /** The identity has a name to ask by that the row lacks, or another art name than the row. */
  predicate ResolvedKnowsMore(resolved: Option<RomIdentity>, record: ArtRecord) {
    resolved.Some?
    && ((NonEmpty(resolved.value.canonicalName) && !NonEmpty(record.canonicalName))
        || (NonEmpty(resolved.value.artName) && record.artName != resolved.value.artName))
  }

  /** The row with the names an attempt was made under, kept whatever its outcome. */
  function Learned(key: string, record: ArtRecord, identity: RomIdentity): ArtRecord {
    record.(serial := record.serial.Or(LearnedSerial(key, identity)),
            canonicalName := record.canonicalName.Or(identity.canonicalName),
            artName := identity.artName.Or(record.artName))
  }

  function AfterFetch(key: string, record: ArtRecord, identity: RomIdentity, fetched: Fetched, now: int): ArtRecord {
    match fetched
    case Hit(sha, url, contentType, source) =>
      Learned(key, record, identity).(sha256 := Some(sha), sourceUrl := Some(url), contentType := Some(contentType),
                                      source := Some(source), missUntil := None)
    case Miss => Learned(key, record, identity).(missUntil := Some(now + NEGATIVE_CACHE_DURATION))
    case Unavailable => Learned(key, record, identity).(missUntil := Some(now + TRANSIENT_FAILURE_BACKOFF))
  }

  /** What identify may write: gaps only, except the art name, which follows the newest index. */
  function Apply(record: ArtRecord, identity: RomIdentity): ArtRecord {
    var r := record.(serial := record.serial.Or(identity.serial),
                     canonicalName := record.canonicalName.Or(identity.canonicalName),
                     title := record.title.Or(identity.title),
                     regionId := record.regionId.Or(identity.regionId));
    if NonEmpty(identity.artName) && record.artName != identity.artName then
      r.(artName := identity.artName, missUntil := None)
    else r
  }

  /** The row once its file has vanished: nothing stops the next fetch. */
  function WithoutOriginal(record: ArtRecord): ArtRecord {
    record.(sha256 := None, missUntil := None)
  }

  predicate Prunable(record: ArtRecord, now: int) {
    record.sha256.None? && record.canonicalName.None? && record.title.None? && record.serial.None?
    && record.artName.None? && record.missUntil.Some? && record.missUntil.value < now
  }

  /** A stored miss still holds this request back. */
  predicate HeldBack(record: ArtRecord, resolved: Option<RomIdentity>, now: int) {
    record.missUntil.Some? && record.missUntil.value > now && !ResolvedKnowsMore(resolved, record)
  }

  // ----- One title's life

  /**
   The walks so far, and why there may have been several: whether a canonical name has been
   heard of, the art name heard of last and how often that changed, evictions, back-offs
   that ran out, and prunings.
   */
  datatype Tally = Tally(walks: nat, named: bool, art: Option<string>, artChanges: nat,
                         evictions: nat, expired: nat, pruned: nat)

  /** The row, the identity of the walk in progress, and the time. */
  datatype Title = Title(record: Option<ArtRecord>, walking: Option<RomIdentity>, now: int, tally: Tally)

  /** A request may carry an identity of its own, and another request for the same key another one. */
  datatype Event =
    | Ask(carried: Option<RomIdentity>, lookup: string -> Option<IndexRow>)
    | Finish(fetched: Fetched)
    | Identify(identity: RomIdentity)
    | Evict
    | Prune
    | Tick(seconds: nat)

  function Row(t: Title): ArtRecord {
    if t.record.Some? then t.record.value else EMPTY
  }

  function Hear(tally: Tally, identity: Option<RomIdentity>): Tally {
    if identity.None? then tally
    else
      var art := identity.value.artName;
      tally.(named := tally.named || NonEmpty(identity.value.canonicalName),
             art := art.Or(tally.art),
             artChanges := tally.artChanges + if art.Some? && art != tally.art then 1 else 0)
  }

  /** A request goes upstream unless a walk, an original or a back-off answers it. */
  predicate StartsWalk(t: Title, carried: Option<RomIdentity>) {
    t.walking.None? && Row(t).sha256.None? && !HeldBack(Row(t), carried, t.now)
  }

  function Step(key: string, t: Title, e: Event): Title {
    match e
    case Ask(carried, lookup) =>
      var heard := Hear(t.tally, carried);
      if !StartsWalk(t, carried) then t.(tally := heard)
      else
        t.(walking := Some(BuildIdentity(key, t.record, carried, lookup)),
           tally := heard.(walks := heard.walks + 1,
                           expired := heard.expired +
                                      if Row(t).missUntil.Some? && Row(t).missUntil.value <= t.now then 1 else 0))
    case Finish(fetched) =>
      if t.walking.None? then t
      else t.(record := Some(AfterFetch(key, Row(t), t.walking.value, fetched, t.now)), walking := None)
    case Identify(identity) =>
      if identity.isMatched then t.(record := Some(Apply(Row(t), identity)), tally := Hear(t.tally, Some(identity))) else t
    case Evict =>
      t.(record := Some(WithoutOriginal(Row(t))), tally := t.tally.(evictions := t.tally.evictions + 1))
    case Prune =>
      if t.record.Some? && Prunable(t.record.value, t.now) then
        t.(record := None, tally := t.tally.(pruned := t.tally.pruned + 1))
      else t
    case Tick(seconds) => t.(now := t.now + seconds)
  }

  function Run(key: string, t: Title, events: seq<Event>): Title
    decreases |events|
  {
    if events == [] then t else Run(key, Step(key, t, events[0]), events[1..])
  }

  // ----- What every run keeps

  /** A stored original and a back-off exclude each other, and a walk only runs without an original. */
  predicate Consistent(t: Title) {
    && (Row(t).sha256.Some? ==> Row(t).missUntil.None?)
    && (t.walking.Some? ==> Row(t).sha256.None?)
  }

  predicate Keeps(before: Option<string>, after: Option<string>) {
    before.Some? ==> after == before
  }

  /** Written once: a serial, a canonical name or a title never changes again. */
  predicate WriteOnce(before: Title, after: Title) {
    && Keeps(Row(before).serial, Row(after).serial)
    && Keeps(Row(before).canonicalName, Row(after).canonicalName)
    && Keeps(Row(before).title, Row(after).title)
  }

  lemma {:induction false} RunIsConsistent(key: string, t: Title, events: seq<Event>)
    requires Consistent(t)
    ensures Consistent(Run(key, t, events)) && WriteOnce(t, Run(key, t, events))
    decreases |events|
  {
    if events != [] {
      RunIsConsistent(key, Step(key, t, events[0]), events[1..]);
    }
  }

  /** The row holds something other than a back-off and the pointer to an original. */
  predicate Known(t: Title) {
    Row(t).serial.Some? || Row(t).canonicalName.Some? || Row(t).title.Some? || Row(t).artName.Some?
  }

  /** No run ever loses a row that knows a serial, a name, a title or an art name. */
  lemma {:induction false} KnowledgeSurvives(key: string, t: Title, events: seq<Event>)
    requires Known(t)
    ensures Run(key, t, events).record.Some? && Known(Run(key, t, events))
    ensures Row(t).artName.Some? ==> Row(Run(key, t, events)).artName.Some?
    decreases |events|
  {
    if events != [] {
      KnowledgeSurvives(key, Step(key, t, events[0]), events[1..]);
    } else {
      assert t.record.Some?;
    }
  }

  // ----- How often a title can be asked for upstream

  predicate NamedOrAbsent(name: Option<string>) {
    name.Some? ==> name.value != []
  }

  /** No canonical name is an empty text: not in the row, nor in the walk. */
  predicate Named(t: Title) {
    && NamedOrAbsent(Row(t).canonicalName)
    && (t.walking.Some? ==> NamedOrAbsent(t.walking.value.canonicalName))
  }

  /** And not in what a request or an identification brings, nor in the index. */
  ghost predicate NamedEvent(e: Event) {
    match e
    case Ask(carried, lookup) =>
      && (carried.Some? ==> NamedOrAbsent(carried.value.canonicalName))
      && forall serial :: lookup(serial).Some? ==> lookup(serial).value.name != []
    case Identify(identity) => NamedOrAbsent(identity.canonicalName)
    case _ => true
  }

  /** The row as the walk in progress, if any, will leave its names. */
  function Settling(key: string, t: Title): ArtRecord {
    if t.walking.Some? then Learned(key, Row(t), t.walking.value) else Row(t)
  }

  /** Nothing answers the next request, whatever it carries. */
  predicate Fresh(t: Title) {
    t.walking.None? && Row(t).sha256.None? && Row(t).missUntil.None?
  }

  function One(b: bool): nat {
    if b then 1 else 0
  }

  /** The walks this title can still cause: for being fresh, and for each name heard of that its row will lack. */
  function Budget(key: string, t: Title): nat {
    var row := Settling(key, t);
    One(Fresh(t)) + One(t.tally.named && row.canonicalName.None?) + One(t.tally.art.Some? && row.artName != t.tally.art)
  }

  /** Walks allowed for: one to begin with, one for the first canonical name, one for whatever else happened. */
  function Allowance(tally: Tally): nat {
    1 + One(tally.named) + tally.artChanges + tally.evictions + tally.expired + tally.pruned
  }

  /** Until its outcome is saved a walk keeps the identity it set out with, and the row its canonical name. */
  lemma {:induction false} WalkGoesOn(key: string, t: Title, events: seq<Event>)
    requires t.walking.Some? && forall e :: e in events ==> !e.Finish?
    ensures Run(key, t, events).walking == t.walking
    ensures Keeps(Row(t).canonicalName, Row(Run(key, t, events)).canonicalName)
    decreases |events|
  {
    if events != [] {
      assert events[0] in events && forall e :: e in events[1..] ==> e in events;
      WalkGoesOn(key, Step(key, t, events[0]), events[1..]);
    }
  }

  /**
   A walk for an identity that ends in a miss, whatever happened to the title while it was
   under way, leaves nothing more for that identity to add; unless it has a canonical name
   and the row it comes back to holds an empty one.
   */
  lemma MissSettlesIdentity(key: string, t: Title, identity: RomIdentity, lookup: string -> Option<IndexRow>,
                            between: seq<Event>, fetched: Fetched)
    requires fetched.Miss? || fetched.Unavailable?
    requires StartsWalk(t, Some(identity)) && forall e :: e in between ==> !e.Finish?
    ensures var before := Run(key, Step(key, t, Ask(Some(identity), lookup)), between);
            ResolvedKnowsMore(Some(identity), Row(Step(key, before, Finish(fetched))))
            <==> NonEmpty(identity.canonicalName) && Row(before).canonicalName == Some("")
  {
    WalkGoesOn(key, Step(key, t, Ask(Some(identity), lookup)), between);
  }

  /** An identification opens a backed-off title to anonymous requests exactly when it brings another art name. */
  lemma IdentifyReopens(key: string, t: Title, identity: RomIdentity)
    requires t.walking.None? && identity.isMatched && !StartsWalk(t, None) && Row(t).sha256.None?
    ensures StartsWalk(Step(key, t, Identify(identity)), None) <==>
            NonEmpty(identity.artName) && Row(t).artName != identity.artName
  {
  }

  lemma StepPaysItsWay(key: string, t: Title, e: Event)
    requires Consistent(t) && Named(t) && NamedEvent(e)
    ensures Named(Step(key, t, e))
    ensures Step(key, t, e).tally.walks + Budget(key, Step(key, t, e)) - t.tally.walks - Budget(key, t)
            <= Allowance(Step(key, t, e).tally) - Allowance(t.tally)
  {
  }

  /**
   However requests, identifications, outcomes, evictions and prunings mix: a title goes
   upstream once, once more for the first canonical name, and once more for each change of
   the art name that is carried, each eviction, each back-off that ran out and each pruning.
   */
  lemma {:induction false} UpstreamTrafficIsBounded(key: string, t: Title, events: seq<Event>)
    requires Consistent(t) && Named(t) && forall e :: e in events ==> NamedEvent(e)
    ensures Run(key, t, events).tally.walks + Budget(key, Run(key, t, events)) + Allowance(t.tally)
            <= t.tally.walks + Budget(key, t) + Allowance(Run(key, t, events).tally)
    decreases |events|
  {
    if events != [] {
      hide Budget, Step, NamedEvent;
      StepPaysItsWay(key, t, events[0]);
      OneStepIsConsistent(key, t, events[0]);
      UpstreamTrafficIsBounded(key, Step(key, t, events[0]), events[1..]);
    }
  }

  lemma OneStepIsConsistent(key: string, t: Title, e: Event)
    requires Consistent(t)
    ensures Consistent(Step(key, t, e))
  {
  }

  const NOTHING := Tally(0, false, None, 0, 0, 0, 0)
  const NEW_TITLE := Title(None, None, 0, NOTHING)

  /** The walks of a new title, whatever identities its requests carry. */
  lemma WalksAreAllowedFor(key: string, events: seq<Event>)
    requires forall e :: e in events ==> NamedEvent(e)
    ensures Run(key, NEW_TITLE, events).tally.walks <= Allowance(Run(key, NEW_TITLE, events).tally)
  {
    UpstreamTrafficIsBounded(key, NEW_TITLE, events);
  }

  // ----- Requests that agree

  /** Identities carry this art name, or none, and all of them a canonical name or none of them. */
  predicate IsLike(identity: RomIdentity, named: bool, art: Option<string>) {
    identity.artName == art && NonEmpty(identity.canonicalName) == named
  }

  predicate Agrees(e: Event, named: bool, art: Option<string>) {
    && (e.Ask? && e.carried.Some? ==> IsLike(e.carried.value, named, art))
    && (e.Identify? ==> IsLike(e.identity, named, art))
  }

  /** What is still to come when all identities are alike: one walk settles both of their names. */
  function AgreedBudget(key: string, t: Title, named: bool, art: Option<string>): nat {
    var row := Settling(key, t);
    One(Fresh(t)) + One((named && row.canonicalName.None?) || (art.Some? && row.artName != art))
  }

  function AgreedAllowance(tally: Tally): nat {
    2 + tally.evictions + tally.expired + tally.pruned
  }

  lemma AgreedStepPaysItsWay(key: string, t: Title, e: Event, named: bool, art: Option<string>)
    requires Consistent(t) && Named(t) && NamedEvent(e) && Agrees(e, named, art)
    ensures Named(Step(key, t, e))
    ensures Step(key, t, e).tally.walks + AgreedBudget(key, Step(key, t, e), named, art)
            - t.tally.walks - AgreedBudget(key, t, named, art)
            <= AgreedAllowance(Step(key, t, e).tally) - AgreedAllowance(t.tally)
  {
  }

  lemma {:induction false} AgreedTrafficIsBounded(key: string, t: Title, events: seq<Event>, named: bool, art: Option<string>)
    requires Consistent(t) && Named(t)
    requires forall e :: e in events ==> NamedEvent(e) && Agrees(e, named, art)
    ensures Run(key, t, events).tally.walks + AgreedBudget(key, Run(key, t, events), named, art) + AgreedAllowance(t.tally)
            <= t.tally.walks + AgreedBudget(key, t, named, art) + AgreedAllowance(Run(key, t, events).tally)
    decreases |events|
  {
    if events != [] {
      hide AgreedBudget, Step, NamedEvent, Agrees;
      AgreedStepPaysItsWay(key, t, events[0], named, art);
      OneStepIsConsistent(key, t, events[0]);
      AgreedTrafficIsBounded(key, Step(key, t, events[0]), events[1..], named, art);
    }
  }

  /**
   While the identities that are carried agree, a new title is walked for at most twice, and
   once more for each eviction, each back-off that ran out and each pruning.
   */
  lemma AtMostTwoWalks(key: string, events: seq<Event>, named: bool, art: Option<string>)
    requires forall e :: e in events ==> NamedEvent(e) && Agrees(e, named, art)
    ensures var tally := Run(key, NEW_TITLE, events).tally;
            tally.walks <= 2 + tally.evictions + tally.expired + tally.pruned
  {
    AgreedTrafficIsBounded(key, NEW_TITLE, events, named, art);
  }

  /** Identities carry this art name or none, whatever else they carry. */
  predicate CarriesAtMost(e: Event, art: string) {
    && (e.Ask? && e.carried.Some? ==> e.carried.value.artName in {None, Some(art)})
    && (e.Identify? ==> e.identity.artName in {None, Some(art)})
  }

  lemma {:induction false} ArtChangesOnce(key: string, t: Title, events: seq<Event>, art: string)
    requires forall e :: e in events ==> CarriesAtMost(e, art)
    requires t.tally.art in {None, Some(art)} && t.tally.artChanges == One(t.tally.art.Some?)
    ensures Run(key, t, events).tally.artChanges <= 1
    decreases |events|
  {
    if events != [] {
      assert CarriesAtMost(events[0], art) && forall e :: e in events[1..] ==> e in events;
      ArtChangesOnce(key, Step(key, t, events[0]), events[1..], art);
    }
  }

  /** Agreement on the one art name, where identities have it, is worth three walks. */
  lemma AtMostThreeWalks(key: string, events: seq<Event>, art: string)
    requires forall e :: e in events ==> NamedEvent(e) && CarriesAtMost(e, art)
    ensures var tally := Run(key, NEW_TITLE, events).tally;
            tally.walks <= 3 + tally.evictions + tally.expired + tally.pruned
  {
    ArtChangesOnce(key, NEW_TITLE, events, art);
    WalksAreAllowedFor(key, events);
  }

  // ----- The bounds are reached

  /** Two requests in turn, each with its own identity and each a miss. */
  function TakeTurns(first: RomIdentity, second: RomIdentity, lookup: string -> Option<IndexRow>, n: nat): seq<Event>
    decreases n
  {
    if n == 0 then [] else [Ask(Some(first), lookup), Finish(Miss)] + TakeTurns(second, first, lookup, n - 1)
  }

  lemma TwoEvents(key: string, t: Title, first: Event, second: Event, rest: seq<Event>)
    ensures Run(key, t, [first, second] + rest) == Run(key, Step(key, Step(key, t, first), second), rest)
  {
    hide Step;
    assert ([first, second] + rest)[1..] == [second] + rest && ([second] + rest)[1..] == rest;
  }

  /**
   Two identities of one key with different art names defeat the back-off: each request
   finds that the other's miss was not for its own name, and walks.
   */
  lemma {:induction false} OtherNamesDefeatBackoff(key: string, t: Title, first: RomIdentity, second: RomIdentity,
                                                   lookup: string -> Option<IndexRow>, n: nat)
    requires NonEmpty(first.artName) && NonEmpty(second.artName) && first.artName != second.artName
    requires t.walking.None? && Row(t).sha256.None? && (Row(t).missUntil.Some? ==> Row(t).missUntil.value > t.now)
    requires Row(t).artName != first.artName && t.tally.art != first.artName
    ensures var after := Run(key, t, TakeTurns(first, second, lookup, n)).tally;
            && after.walks == t.tally.walks + n && after.artChanges == t.tally.artChanges + n
            && (t.tally.named ==> after.named)
            && after.evictions == t.tally.evictions && after.expired == t.tally.expired && after.pruned == t.tally.pruned
    decreases n
  {
    if n > 0 {
      var t1 := Step(key, t, Ask(Some(first), lookup));
      var t2 := Step(key, t1, Finish(Miss));
      assert Row(t2).artName == first.artName && t2.tally.art == first.artName;
      OtherNamesDefeatBackoff(key, t2, second, first, lookup, n - 1);
      TwoEvents(key, t, Ask(Some(first), lookup), Finish(Miss), TakeTurns(second, first, lookup, n - 1));
    }
  }

  /** So the walks allowed for are reached, for every number of changes of the art name. */
  lemma AllWalksHappen(key: string, name: string, first: RomIdentity, second: RomIdentity, n: nat)
    requires name != [] && NonEmpty(first.artName) && NonEmpty(second.artName) && first.artName != second.artName
    ensures var nothing := (_: string) => None;
            var blind := [Ask(None, nothing), Finish(Miss)];
            var byName := [Ask(Some(RomIdentity(None, Some(name), None, None, None, true)), nothing), Finish(Miss)];
            var tally := Run(key, NEW_TITLE, blind + (byName + TakeTurns(first, second, nothing, n))).tally;
            tally.walks == 2 + n == Allowance(tally)
  {
    var nothing := (_: string) => None;
    var identity := RomIdentity(None, Some(name), None, None, None, true);
    var turns := TakeTurns(first, second, nothing, n);
    var t1 := Step(key, Step(key, NEW_TITLE, Ask(None, nothing)), Finish(Miss));
    var t2 := Step(key, Step(key, t1, Ask(Some(identity), nothing)), Finish(Miss));
    assert t2.tally == NOTHING.(walks := 2, named := true) && Row(t2).artName == None;
    TwoEvents(key, t1, Ask(Some(identity), nothing), Finish(Miss), turns);
    TwoEvents(key, NEW_TITLE, Ask(None, nothing), Finish(Miss), [Ask(Some(identity), nothing), Finish(Miss)] + turns);
    OtherNamesDefeatBackoff(key, t2, first, second, nothing, n);
  }

  /** So are the three of requests that agree on the art name only: a blind miss, one with that name, one with both. */
  lemma ThreeWalksHappen(key: string, name: string, art: string)
    requires name != [] && art != []
    ensures var nothing := (_: string) => None;
            var artOnly := Some(RomIdentity(None, None, Some(art), None, None, true));
            var both := Some(RomIdentity(None, Some(name), Some(art), None, None, true));
            var events := [Ask(None, nothing), Finish(Miss)] + ([Ask(artOnly, nothing), Finish(Miss)]
                          + [Ask(both, nothing), Finish(Miss)]);
            var tally := Run(key, NEW_TITLE, events).tally;
            tally.walks == 3 && tally.evictions == tally.expired == tally.pruned == 0
  {
    var nothing := (_: string) => None;
    var artOnly := Some(RomIdentity(None, None, Some(art), None, None, true));
    var both := Some(RomIdentity(None, Some(name), Some(art), None, None, true));
    var t1 := Step(key, Step(key, NEW_TITLE, Ask(None, nothing)), Finish(Miss));
    var t2 := Step(key, Step(key, t1, Ask(artOnly, nothing)), Finish(Miss));
    TwoEvents(key, NEW_TITLE, Ask(None, nothing), Finish(Miss),
              [Ask(artOnly, nothing), Finish(Miss)] + [Ask(both, nothing), Finish(Miss)]);
    TwoEvents(key, t1, Ask(artOnly, nothing), Finish(Miss), [Ask(both, nothing), Finish(Miss)]);
    TwoEvents(key, t2, Ask(both, nothing), Finish(Miss), []);
    assert [Ask(both, nothing), Finish(Miss)] + [] == [Ask(both, nothing), Finish(Miss)];
  }

  /** And so are the two of requests that agree: a blind miss, then the same title asked for with its identity. */
  lemma TwoWalksHappen(key: string, identity: RomIdentity)
    requires NonEmpty(identity.canonicalName) || NonEmpty(identity.artName)
    ensures var nothing := (_: string) => None;
            var tally := Run(key, NEW_TITLE, [Ask(None, nothing), Finish(Miss)] + [Ask(Some(identity), nothing), Finish(Miss)]).tally;
            tally.walks == 2 && tally.evictions == tally.expired == tally.pruned == 0
  {
    var nothing := (_: string) => None;
    var t1 := Step(key, Step(key, NEW_TITLE, Ask(None, nothing)), Finish(Miss));
    TwoEvents(key, NEW_TITLE, Ask(None, nothing), Finish(Miss), [Ask(Some(identity), nothing), Finish(Miss)]);
    TwoEvents(key, t1, Ask(Some(identity), nothing), Finish(Miss), []);
    assert [Ask(Some(identity), nothing), Finish(Miss)] + [] == [Ask(Some(identity), nothing), Finish(Miss)];
  }

  /**
   A key nobody knows leaves no row behind: what one anonymous request and its failed fetch
   store is pruned once the back-off has passed, exactly when the key is a name digest or the
   index does not know it as a serial.
   */
  lemma UnknownKeysArePruned(key: string, t: Title, lookup: string -> Option<IndexRow>, fetched: Fetched, seconds: nat)
    requires t.record.None? && t.walking.None? && (fetched.Miss? || fetched.Unavailable?)
    ensures var backoff := if fetched.Miss? then NEGATIVE_CACHE_DURATION else TRANSIENT_FAILURE_BACKOFF;
            Run(key, t, [Ask(None, lookup), Finish(fetched), Tick(seconds), Prune]).record.None? <==>
            seconds > backoff && (IsNameDigest(key) || lookup(key).None?)
  {
    var events := [Ask(None, lookup), Finish(fetched), Tick(seconds), Prune];
    var t1 := Step(key, t, events[0]);
    var t2 := Step(key, t1, events[1]);
    var t3 := Step(key, t2, events[2]);
    assert events[1..][1..] == events[2..] && events[2..][1..] == events[3..] && events[3..][1..] == [];
    assert Run(key, t3, events[3..]) == Step(key, t3, Prune);
    assert Run(key, t2, events[2..]) == Run(key, t3, events[3..]);
    assert Run(key, t1, events[1..]) == Run(key, t2, events[2..]);
  }

  // ----- What a walk asks by, and what is left of it

  /** Sixteen lower-case hexadecimal digits. */
  predicate IsSixteenDigits(key: string) {
    |key| == 16 && forall c :: c in key ==> c in "0123456789abcdef"
  }

  /**
   A walk asks by the row's serial, else by the one carried, else by the key unless that is a
   digest of a name; by the row's canonical name, else the one carried, else the index's for
   that serial; and by the art name carried, else the row's, else the index's.
   */
  lemma WalkAsksBy(key: string, t: Title, carried: Option<RomIdentity>, lookup: string -> Option<IndexRow>)
    requires StartsWalk(t, carried)
    ensures var walk := Step(key, t, Ask(carried, lookup)).walking;
            && walk.Some?
            && var w, row := walk.value, Row(t);
               && w.title == row.title && (w.isMatched <==> key != "")
               && (w.regionId.Some? <==> row.regionId.Some? && row.regionId.value != "")
               && (w.regionId.Some? ==> w.regionId.value == [row.regionId.value[0]])
               && (row.serial.Some? ==> w.serial == row.serial)
               && (row.serial.None? && carried.Some? && carried.value.serial.Some? ==> w.serial == carried.value.serial)
               && (row.serial.None? && (carried.None? || carried.value.serial.None?) ==>
                     w.serial == if IsSixteenDigits(key) then None else Some(key))
               && var entry := if w.serial.Some? then lookup(w.serial.value) else None;
                  && (row.canonicalName.Some? ==> w.canonicalName == row.canonicalName)
                  && (row.canonicalName.None? && carried.Some? && carried.value.canonicalName.Some? ==>
                        w.canonicalName == carried.value.canonicalName)
                  && (row.canonicalName.None? && (carried.None? || carried.value.canonicalName.None?) ==>
                        w.canonicalName == if entry.Some? then Some(entry.value.name) else None)
                  && (carried.Some? && carried.value.artName.Some? ==> w.artName == carried.value.artName)
                  && ((carried.None? || carried.value.artName.None?) && row.artName.Some? ==> w.artName == row.artName)
                  && ((carried.None? || carried.value.artName.None?) && row.artName.None? ==>
                        w.artName == if entry.Some? then entry.value.artName else None)
  {
    assert IsSixteenDigits(key) <==> IsNameDigest(key) by {
      DigestDigits(key);
    }
  }

  lemma DigestDigits(key: string)
    ensures IsSixteenDigits(key) <==> IsNameDigest(key)
  {
    forall c: char ensures c in "0123456789abcdef" <==> '0' <= c <= '9' || 'a' <= c <= 'f' {
      HexDigit(c);
    }
  }

  lemma HexDigit(c: char)
    ensures c in "0123456789abcdef" <==> '0' <= c <= '9' || 'a' <= c <= 'f'
  {
    var digits := "0123456789abcdef";
    if '0' <= c <= '9' {
      assert digits[c as int - '0' as int] == c;
    } else if 'a' <= c <= 'f' {
      assert digits[c as int - 'a' as int + 10] == c;
    }
  }

  /** Until an original is evicted the title is served from it, with everything the fetch said of it. */
  lemma {:induction false} HitIsServedUntilEvicted(key: string, t: Title, events: seq<Event>)
    requires Consistent(t) && Row(t).sha256.Some? && forall e :: e in events ==> !e.Evict?
    ensures var row := Row(Run(key, t, events));
            && row.sha256 == Row(t).sha256 && row.sourceUrl == Row(t).sourceUrl
            && row.contentType == Row(t).contentType && row.source == Row(t).source
            && Run(key, t, events).tally.walks == t.tally.walks
    decreases |events|
  {
    if events != [] {
      assert events[0] in events && forall e :: e in events[1..] ==> e in events;
      HitIsServedUntilEvicted(key, Step(key, t, events[0]), events[1..]);
    }
  }

  /**
   Whatever comes of a walk, the row remembers what it asked by: the serial, unless it only
   repeats the key, and the canonical name where the row had none; and the art name.
   */
  lemma WalkIsRemembered(key: string, t: Title, fetched: Fetched)
    requires t.walking.Some?
    ensures var w, row, after := t.walking.value, Row(t), Row(Step(key, t, Finish(fetched)));
            && after.serial == (if row.serial.Some? then row.serial
                                else if w.serial.Some? && SameText(w.serial.value, key) then None
                                else w.serial)
            && after.canonicalName == (if row.canonicalName.Some? then row.canonicalName else w.canonicalName)
            && after.artName == (if w.artName.Some? then w.artName else row.artName)
            && after.title == row.title && after.regionId == row.regionId
            && (!fetched.Hit? ==> after.missUntil == Some(t.now + if fetched.Miss? then 43_200 else 300))
            && (!fetched.Hit? ==> after.sha256 == row.sha256 && after.sourceUrl == row.sourceUrl)
  {
    if t.walking.value.serial.Some? {
      FoldsAlike(t.walking.value.serial.value, key);
    }
  }

  /** The tally counts each walk, eviction, expiry and pruning once, and nothing else. */
  lemma StepCounts(key: string, t: Title, e: Event)
    ensures var after := Step(key, t, e);
            && after.tally.walks == t.tally.walks + (if t.walking.None? && after.walking.Some? then 1 else 0)
            && after.tally.evictions == t.tally.evictions + (if e.Evict? then 1 else 0)
            && after.tally.pruned == t.tally.pruned + (if t.record.Some? && after.record.None? then 1 else 0)
            && after.tally.expired == t.tally.expired
                 + (if t.walking.None? && after.walking.Some? && Row(t).missUntil.Some? && Row(t).missUntil.value <= t.now
                    then 1 else 0)
            && t.tally.artChanges <= after.tally.artChanges <= t.tally.artChanges + 1
            && (after.tally.artChanges > t.tally.artChanges ==> after.tally.art.Some? && after.tally.art != t.tally.art)
  {
  }

  lemma HitIsSaved(key: string, t: Title, sha: string, url: string, contentType: string, source: string)
    requires Consistent(t) && t.walking.Some?
    ensures var after := Step(key, t, Finish(Hit(sha, url, contentType, source)));
            && Consistent(after) && after.walking.None? && Row(after).missUntil.None?
            && Row(after).sha256 == Some(sha) && Row(after).sourceUrl == Some(url)
            && Row(after).contentType == Some(contentType) && Row(after).source == Some(source)
  {
  }

  /** A miss holds anonymous requests back for twelve hours, an outage for five minutes, to the second. */
  lemma BackoffLasts(key: string, t: Title, carried: Option<RomIdentity>, lookup: string -> Option<IndexRow>,
                     fetched: Fetched, seconds: nat)
    requires StartsWalk(t, carried) && (fetched.Miss? || fetched.Unavailable?)
    ensures StartsWalk(Run(key, t, [Ask(carried, lookup), Finish(fetched), Tick(seconds)]), None) <==>
            seconds >= if fetched.Miss? then 43_200 else 300
  {
    var events := [Ask(carried, lookup), Finish(fetched), Tick(seconds)];
    var walking := Step(key, t, events[0]);
    var missed := Step(key, walking, events[1]);
    assert events[1..] == [Finish(fetched), Tick(seconds)] && events[1..][1..] == [Tick(seconds)];
    assert Run(key, missed, [Tick(seconds)]) == missed.(now := missed.now + seconds);
    assert Run(key, t, events) == Run(key, missed, [Tick(seconds)]);
  }

  /** A request that carries nothing, or the two names under which the index has the title. */
  predicate BringsOnly(e: Event, name: string, art: string) {
    match e
    case Ask(carried, _) =>
      carried.Some? ==> carried.value.canonicalName == Some(name) && carried.value.artName == Some(art)
    case Tick(_) => true
    case _ => false
  }

  function Seconds(events: seq<Event>): nat {
    if events == [] then 0 else (if events[0].Tick? then events[0].seconds else 0) + Seconds(events[1..])
  }

  lemma {:induction false} StaysHeldBack(key: string, t: Title, events: seq<Event>, name: string, art: string)
    requires name != "" && art != "" && forall e :: e in events ==> BringsOnly(e, name, art)
    requires t.walking.None? && Row(t).canonicalName == Some(name) && Row(t).artName == Some(art)
    requires Row(t).sha256.None? && Row(t).missUntil.Some? && t.now + Seconds(events) < Row(t).missUntil.value
    ensures Run(key, t, events).tally.walks == t.tally.walks
    decreases |events|
  {
    if events != [] {
      assert events[0] in events && forall e :: e in events[1..] ==> e in events;
      assert BringsOnly(events[0], name, art);
      StaysHeldBack(key, Step(key, t, events[0]), events[1..], name, art);
    }
  }

  /**
   An anonymous walk for a key the index knows asks by the index's names; so if it misses,
   requests that carry those very names, or none, walk no second time for twelve hours.
   */
  lemma IndexedMissHoldsBack(key: string, lookup: string -> Option<IndexRow>, name: string, art: string, events: seq<Event>)
    requires !IsSixteenDigits(key) && lookup(key) == Some(IndexRow(name, Some(art))) && name != "" && art != ""
    requires (forall e :: e in events ==> BringsOnly(e, name, art)) && Seconds(events) < 43_200
    ensures Run(key, NEW_TITLE, [Ask(None, lookup), Finish(Miss)] + events).tally.walks == 1
  {
    WalkAsksBy(key, NEW_TITLE, None, lookup);
    var walking := Step(key, NEW_TITLE, Ask(None, lookup));
    var missed := Step(key, walking, Finish(Miss));
    var all := [Ask(None, lookup), Finish(Miss)] + events;
    assert all[1..] == [Finish(Miss)] + events && all[1..][1..] == events;
    StaysHeldBack(key, missed, events, name, art);
  }

  /** An identification fills what the row lacks, and replaces only the art name, which lifts a back-off. */
  lemma IdentifyFillsGaps(key: string, t: Title, identity: RomIdentity)
    requires identity.isMatched
    ensures var before, after := Row(t), Row(Step(key, t, Identify(identity)));
            && after.serial == (if before.serial.Some? then before.serial else identity.serial)
            && after.canonicalName == (if before.canonicalName.Some? then before.canonicalName else identity.canonicalName)
            && after.title == (if before.title.Some? then before.title else identity.title)
            && after.regionId == (if before.regionId.Some? then before.regionId else identity.regionId)
            && after.sha256 == before.sha256 && after.sourceUrl == before.sourceUrl
            && var renames := identity.artName.Some? && identity.artName.value != "" && identity.artName != before.artName;
               && after.artName == (if renames then identity.artName else before.artName)
               && after.missUntil == (if renames then None else before.missUntil)
  {
  }

  // ----- The store and the pipeline

  type TitleKey = (string, string)

  /** The rows, by console and key. */
  class ArtRecordStore {
    var rows: map<TitleKey, ArtRecord>

    constructor ()
      ensures rows == map[]
    {
      rows := map[];
    }

    function Find(at: TitleKey): Option<ArtRecord>
      reads this
    {
      if at in rows then Some(rows[at]) else None
    }

    /** Replaces the row by the changed one, starting from an empty row where there was none. */
    method Upsert(at: TitleKey, change: ArtRecord -> ArtRecord) returns (record: ArtRecord)
      modifies this
      ensures record == change(if at in old(rows) then old(rows)[at] else EMPTY)
      ensures rows == old(rows)[at := record]
    {
      record := change(if at in rows then rows[at] else EMPTY);
      rows := rows[at := record];
    }

    method RememberIdentity(at: TitleKey, identity: RomIdentity)
      modifies this
      ensures rows == if identity.isMatched
                      then old(rows)[at := Apply(if at in old(rows) then old(rows)[at] else EMPTY, identity)]
                      else old(rows)
    {
      if identity.isMatched {
        var _ := Upsert(at, r => Apply(r, identity));
      }
    }

    method PruneUnresolved(now: int) returns (deleted: nat)
      modifies this
      ensures rows == map at | at in old(rows) && !Prunable(old(rows)[at], now) :: old(rows)[at]
      ensures deleted == |old(rows)| - |rows|
    {
      var gone := set at | at in rows && Prunable(rows[at], now);
      deleted := |gone|;
      assert rows.Keys == (rows.Keys - gone) + gone;
      rows := rows - gone;
    }
  }

  /** The walks in progress, at most one a title, over the store. */
  class ArtPipeline {
    const store: ArtRecordStore
    var walking: map<TitleKey, RomIdentity>

    constructor (store: ArtRecordStore)
      ensures this.store == store && walking == map[]
    {
      this.store := store;
      walking := map[];
    }

    /** One title as its row and its walk show it. */
    ghost function TitleAt(at: TitleKey, now: int, tally: Tally): Title
      reads this, store
    {
      Title(store.Find(at), if at in walking then Some(walking[at]) else None, now, tally)
    }

    /** The first reading of the row: a request stops here only where it would not have walked. */
    method CheckRecord(at: TitleKey, carried: Option<RomIdentity>, now: int, ghost tally: Tally)
      returns (stops: bool, record: Option<ArtRecord>)
      ensures stops <==> Row(TitleAt(at, now, tally)).sha256.Some? || HeldBack(Row(TitleAt(at, now, tally)), carried, now)
      ensures stops ==> !StartsWalk(TitleAt(at, now, tally), carried)
      ensures record == if Row(TitleAt(at, now, tally)).sha256.Some? then store.Find(at) else None
    {
      var found := store.Find(at);
      if found.Some? && found.value.sha256.Some? {
        return true, found;
      }
      return found.Some? && HeldBack(found.value, carried, now), None;
    }

    /** The second reading, once the request holds the title's fetch or joins the one in progress. */
    method EnterFetch(at: TitleKey, carried: Option<RomIdentity>, now: int,
                      lookup: string -> Option<IndexRow>, ghost tally: Tally)
      returns (record: Option<ArtRecord>, walks: bool)
      modifies this
      ensures var before := old(TitleAt(at, now, tally));
              var after := Step(at.1, before, Ask(carried, lookup));
              TitleAt(at, now, after.tally) == after && walks == StartsWalk(before, carried)
      ensures forall other :: other != at ==> (other in walking <==> other in old(walking))
      ensures forall other :: other != at && other in walking ==> walking[other] == old(walking)[other]
      ensures record.Some? ==> record == store.Find(at) && record.value.sha256.Some?
    {
      record, walks := None, false;
      if at in walking {
        return;
      }
      var stops, found := CheckRecord(at, carried, now, tally);
      if stops {
        return found, false;
      }
      walking := walking[at := BuildIdentity(at.1, store.Find(at), carried, lookup)];
      walks := true;
    }

    /** The walk's outcome is saved on the row as it is by then. */
    method FinishFetch(at: TitleKey, fetched: Fetched, now: int, ghost tally: Tally) returns (record: ArtRecord)
      requires at in walking
      modifies this, store
      ensures TitleAt(at, now, tally) == Step(at.1, old(TitleAt(at, now, tally)), Finish(fetched))
      ensures walking == old(walking) - {at} && store.rows == old(store.rows)[at := record]
    {
      var identity := walking[at];
      record := store.Upsert(at, r => AfterFetch(at.1, r, identity, fetched, now));
      walking := walking - {at};
    }

    /** Rendering found the original gone. */
    method DropOriginal(at: TitleKey)
      modifies store
      ensures store.rows == old(store.rows)[at := WithoutOriginal(if at in old(store.rows) then old(store.rows)[at] else EMPTY)]
    {
      var _ := store.Upsert(at, r => WithoutOriginal(r));
    }
  }
}
