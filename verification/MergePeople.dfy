/** The People hub: voice profiles and person entities merged into one list
    (apps/web/src/lib/mergePeople.ts). */
module MergePeople {
  import opened Options
  import opened Utf16
  import opened DayKeys
  import opened IsoTimes
  import StableSort

  type Id = string
  /** ISO timestamps, as strings. */
  type Timestamp = Text

  datatype Consent = Unknown | Consented | Declined
  datatype Status = Unconfirmed | Confirmed

  datatype VoiceProfile = VoiceProfile(
    id: Id, name: Option<string>, recordingCount: nat, consentStatus: Consent, redacted: bool, isSelf: bool,
    status: Status, lastHeardAt: Option<Timestamp>)

  datatype RegistryEntity = RegistryEntity(
    id: Id, canonicalName: string, voiceProfileId: Option<Id>, mentionCount: nat, lastSeenAt: Timestamp)

  datatype Provenance = Both | Heard | Mentioned
  datatype Detail = ContactPage(id: Id) | EntityPage(id: Id)

  datatype UnifiedPerson = UnifiedPerson(
    key: Id, name: Option<string>, provenance: Provenance, detailTo: Detail,
    voiceProfile: Option<VoiceProfile>, entity: Option<RegistryEntity>,
    recordingCount: nat, mentionCount: nat, consentStatus: Option<Consent>,
    redacted: bool, isSelf: bool, unconfirmed: bool, lastActivityAt: Option<Timestamp>)

  function LaterOf(a: Option<Timestamp>, b: Option<Timestamp>): Option<Timestamp> {
    if a.None? then b
    else if b.None? then a
    else if Less(b.value, a.value) then a else b
  }

  function FromProfile(profile: VoiceProfile, entity: Option<RegistryEntity>): UnifiedPerson {
    UnifiedPerson(
      profile.id,
      if profile.name.Some? then profile.name else if entity.Some? then Some(entity.value.canonicalName) else None,
      if entity.Some? then Both else Heard,
      ContactPage(profile.id),
      Some(profile),
      entity,
      profile.recordingCount,
      if entity.Some? then entity.value.mentionCount else 0,
      Some(profile.consentStatus),
      profile.redacted,
      profile.isSelf,
      profile.status == Unconfirmed,
      LaterOf(profile.lastHeardAt, if entity.Some? then Some(entity.value.lastSeenAt) else None))
  }

  function FromEntity(entity: RegistryEntity): UnifiedPerson {
    UnifiedPerson(
      entity.id, Some(entity.canonicalName), Mentioned, EntityPage(entity.id), None, Some(entity),
      0, entity.mentionCount, None, false, false, false, Some(entity.lastSeenAt))
  }

  /** The entity names a profile we have; an empty id names none. */
  predicate Linked(e: RegistryEntity, profiles: seq<VoiceProfile>) {
    e.voiceProfileId.Some? && e.voiceProfileId.value != "" &&
    exists k :: 0 <= k < |profiles| && profiles[k].id == e.voiceProfileId.value
  }

  /** The first entity that names this profile. */
  function FirstLink(entities: seq<RegistryEntity>, profileId: Id): Option<RegistryEntity> {
    if profileId == "" || entities == [] then None
    else if entities[0].voiceProfileId == Some(profileId) then Some(entities[0])
    else FirstLink(entities[1..], profileId)
  }

  function ProfileRows(profiles: seq<VoiceProfile>, entities: seq<RegistryEntity>): seq<UnifiedPerson> {
    seq(|profiles|, i requires 0 <= i < |profiles| => FromProfile(profiles[i], FirstLink(entities, profiles[i].id)))
  }

  /** The entities without a profile we have, in order. */
  function Unlinked(entities: seq<RegistryEntity>, profiles: seq<VoiceProfile>): seq<RegistryEntity> {
    if entities == [] then []
    else
      var last := entities[|entities| - 1];
      Unlinked(entities[..|entities| - 1], profiles) + if Linked(last, profiles) then [] else [last]
  }

  function EntityRows(entities: seq<RegistryEntity>): seq<UnifiedPerson> {
    seq(|entities|, i requires 0 <= i < |entities| => FromEntity(entities[i]))
  }

  function Rows(profiles: seq<VoiceProfile>, entities: seq<RegistryEntity>): seq<UnifiedPerson> {
    ProfileRows(profiles, entities) + EntityRows(Unlinked(entities, profiles))
  }

  /** A collation: `le(x, y)` stands for `x.localeCompare(y) <= 0`. */
  type Collation = (Text, Text) -> bool

  /** `p.lastActivityAt ?? ''`. */
  function Activity(p: UnifiedPerson): Text {
    if p.lastActivityAt.Some? then p.lastActivityAt.value else []
  }

  /** The comparator of the sort: latest activity first. */
  function NewerFirst(le: Collation): (UnifiedPerson, UnifiedPerson) -> bool {
    (a, b) => le(Activity(b), Activity(a))
  }

  /** `new Map(profiles.map((p) => [p.id, p]))`: the last profile of an id wins. */
  function ProfileById(profiles: seq<VoiceProfile>): (m: map<Id, VoiceProfile>)
    ensures forall id :: id in m <==> exists k :: 0 <= k < |profiles| && profiles[k].id == id
  {
    if profiles == [] then map[]
    else
      var last := profiles[|profiles| - 1];
      ProfileById(profiles[..|profiles| - 1])[last.id := last]
  }

  method Merge(le: Collation, profiles: seq<VoiceProfile>, personEntities: seq<RegistryEntity>)
    returns (people: seq<UnifiedPerson>)
    ensures people == Merged(le, profiles, personEntities)
  {
    var profileById := ProfileById(profiles);
    var entityByProfile: map<Id, RegistryEntity> := map[];
    var mentionedOnly: seq<RegistryEntity> := [];
    hide Linked, FirstLink, Unlinked, FromProfile, FromEntity, ProfileById;
    NothingSeen(profiles);
    for i := 0 to |personEntities|
      invariant mentionedOnly == Unlinked(personEntities[..i], profiles)
      invariant forall id :: id in profileById ==>
                  FirstLink(personEntities[..i], id) ==
                  if id in entityByProfile then Some(entityByProfile[id]) else None
    {
      var entity := personEntities[i];
      OneMoreEntity(personEntities, i, profiles);
      LinkedInMap(entity, profiles, profileById);
      var link := entity.voiceProfileId;
      if link.Some? && link.value != "" && link.value in profileById {
        if link.value !in entityByProfile {
          entityByProfile := entityByProfile[link.value := entity];
        }
      } else {
        mentionedOnly := mentionedOnly + [entity];
      }
    }
    assert personEntities[..|personEntities|] == personEntities;
    var linked := seq(|profiles|, i requires 0 <= i < |profiles| =>
      FromProfile(profiles[i],
                  if profiles[i].id in entityByProfile then Some(entityByProfile[profiles[i].id]) else None));
    assert linked == ProfileRows(profiles, personEntities) by {
      forall i | 0 <= i < |profiles| ensures profiles[i].id in profileById {}
    }
    people := StableSort.Sort(NewerFirst(le), linked + EntityRows(mentionedOnly));
  }

  lemma NothingSeen(profiles: seq<VoiceProfile>)
    ensures Unlinked([], profiles) == [] && forall id :: FirstLink([], id) == None
  {
  }

  lemma LinkedInMap(e: RegistryEntity, profiles: seq<VoiceProfile>, profileById: map<Id, VoiceProfile>)
    requires forall id :: id in profileById <==> exists k :: 0 <= k < |profiles| && profiles[k].id == id
    ensures Linked(e, profiles) <==>
            e.voiceProfileId.Some? && e.voiceProfileId.value != "" && e.voiceProfileId.value in profileById
  {
  }

  lemma {:induction false} FirstLinkSnoc(entities: seq<RegistryEntity>, e: RegistryEntity, id: Id)
    ensures FirstLink(entities + [e], id) ==
            if FirstLink(entities, id).Some? then FirstLink(entities, id)
            else if id != "" && e.voiceProfileId == Some(id) then Some(e) else None
  {
    var all := entities + [e];
    if entities == [] {
      assert all[1..] == [];
    } else {
      FirstLinkSnoc(entities[1..], e, id);
      assert all[1..] == entities[1..] + [e] && all[0] == entities[0];
    }
  }

  lemma OneMoreEntity(entities: seq<RegistryEntity>, i: nat, profiles: seq<VoiceProfile>)
    requires i < |entities|
    ensures Unlinked(entities[..i + 1], profiles) ==
            Unlinked(entities[..i], profiles) + if Linked(entities[i], profiles) then [] else [entities[i]]
    ensures forall id :: FirstLink(entities[..i + 1], id) ==
              if FirstLink(entities[..i], id).Some? then FirstLink(entities[..i], id)
              else if id != "" && entities[i].voiceProfileId == Some(id) then Some(entities[i]) else None
  {
    hide Linked;
    assert entities[..i + 1][..i] == entities[..i];
    assert entities[..i + 1] == entities[..i] + [entities[i]];
    forall id ensures FirstLink(entities[..i + 1], id) ==
        if FirstLink(entities[..i], id).Some? then FirstLink(entities[..i], id)
        else if id != "" && entities[i].voiceProfileId == Some(id) then Some(entities[i]) else None
    {
      FirstLinkSnoc(entities[..i], entities[i], id);
    }
  }

  // ---- order ----

  lemma NewerFirstIsAnOrder(le: Collation)
    requires StableSort.TotalPreorder(le)
    ensures StableSort.TotalPreorder(NewerFirst(le))
  {
    hide Activity;
    var newer := NewerFirst(le);
    forall a, b ensures newer(a, b) || newer(b, a) {
      assert le(Activity(b), Activity(a)) || le(Activity(a), Activity(b));
    }
    forall a, b, c | newer(a, b) && newer(b, c) ensures newer(a, c) {
      assert le(Activity(b), Activity(a)) && le(Activity(c), Activity(b));
    }
  }

  function Merged(le: Collation, profiles: seq<VoiceProfile>, entities: seq<RegistryEntity>): seq<UnifiedPerson> {
    StableSort.Sort(NewerFirst(le), Rows(profiles, entities))
  }

  lemma MergedPermutes(le: Collation, profiles: seq<VoiceProfile>, entities: seq<RegistryEntity>)
    ensures multiset(Merged(le, profiles, entities)) == multiset(Rows(profiles, entities))
  {
    hide Rows, NewerFirst;
    StableSort.SortPermutes(NewerFirst(le), Rows(profiles, entities));
  }

  /** Whatever the locale, the hub is the rows, latest activity first; rows with the
      same activity keep their order, profiles before entities. */
  lemma MergedIsSorted(le: Collation, profiles: seq<VoiceProfile>, entities: seq<RegistryEntity>)
    requires StableSort.TotalPreorder(le)
    ensures var people, newer := Merged(le, profiles, entities), NewerFirst(le);
            && (forall i, j :: 0 <= i < j < |people| ==> newer(people[i], people[j]))
            && multiset(people) == multiset(Rows(profiles, entities))
            && forall p :: StableSort.Ties(newer, people, p) == StableSort.Ties(newer, Rows(profiles, entities), p)
  {
    NewerFirstIsAnOrder(le);
    hide Rows, NewerFirst;
    StableSort.SortIsStable(NewerFirst(le), Rows(profiles, entities));
  }

  /** The collation orders timestamps of four-digit years by their characters and
      puts the empty string before them. */
  ghost predicate OrdersTimestamps(le: Collation) {
    forall t, u :: 0 <= Year(t) <= 9999 && 0 <= Year(u) <= 9999 ==>
      && (le(IsoString(t), IsoString(u)) <==> !Less(IsoString(u), IsoString(t)))
      && !le(IsoString(t), [])
  }

  /** Then people with later activity come first, and those without any come last. */
  lemma NewestFirst(le: Collation, profiles: seq<VoiceProfile>, entities: seq<RegistryEntity>, i: nat, j: nat, u: int)
    requires StableSort.TotalPreorder(le) && OrdersTimestamps(le)
    requires i < j < |Merged(le, profiles, entities)|
    requires Merged(le, profiles, entities)[j].lastActivityAt == Some(IsoString(u)) && 0 <= Year(u) <= 9999
    ensures Merged(le, profiles, entities)[i].lastActivityAt.Some?
    ensures forall t :: 0 <= Year(t) <= 9999 ==>
              Merged(le, profiles, entities)[i].lastActivityAt == Some(IsoString(t)) ==> t >= u
  {
    hide Merged, IsoString, Year, Less;
    MergedIsSorted(le, profiles, entities);
    var a, b := Merged(le, profiles, entities)[i], Merged(le, profiles, entities)[j];
    assert le(Activity(b), Activity(a)) by { assert NewerFirst(le)(a, b); }
    assert le(IsoString(u), IsoString(u)) ==> !le(IsoString(u), []);
    forall t | 0 <= Year(t) <= 9999 && a.lastActivityAt == Some(IsoString(t)) ensures t >= u {
      assert le(IsoString(u), IsoString(t)) <==> !Less(IsoString(t), IsoString(u));
      StringOrderIsTimeOrder(t, u);
    }
  }

  /** The activity a row is sorted by is the latest its two halves know of: one of
      them, and neither is later. */
  lemma ActivityIsLatest(profile: VoiceProfile, entity: Option<RegistryEntity>, t: Timestamp)
    ensures var activity := FromProfile(profile, entity).lastActivityAt;
            activity == Some(t) <==>
            && (profile.lastHeardAt == Some(t) || (entity.Some? && entity.value.lastSeenAt == t))
            && (profile.lastHeardAt.Some? ==> !Less(t, profile.lastHeardAt.value))
            && (entity.Some? ==> !Less(t, entity.value.lastSeenAt))
  {
    hide Less;
    NotLessItself(t);
    if profile.lastHeardAt.Some? && entity.Some? {
      LessIsTotal(profile.lastHeardAt.value, entity.value.lastSeenAt);
    }
  }

  lemma {:induction false} LoneInOrder(entities: seq<RegistryEntity>, profiles: seq<VoiceProfile>)
    returns (at: seq<nat>)
    ensures |at| == |Unlinked(entities, profiles)|
    ensures forall k :: 0 <= k < |at| ==> at[k] < |entities| && Unlinked(entities, profiles)[k] == entities[at[k]]
    ensures forall k, l :: 0 <= k < l < |at| ==> at[k] < at[l]
    ensures forall j :: 0 <= j < |entities| ==> (j in at <==> !Linked(entities[j], profiles))
  {
    hide Linked;
    at := [];
    if entities != [] {
      at := LoneInOrder(entities[..|entities| - 1], profiles);
      if !Linked(entities[|entities| - 1], profiles) {
        at := at + [|entities| - 1];
      }
    }
  }

  /** Before the sort the rows are those of the profiles, in order, then those of the
      lone entities, in order. */
  lemma RowsInOrder(profiles: seq<VoiceProfile>, entities: seq<RegistryEntity>) returns (at: seq<nat>)
    ensures var rows := Rows(profiles, entities);
            && |rows| == |profiles| + |at|
            && (forall i :: 0 <= i < |profiles| ==> rows[i].voiceProfile == Some(profiles[i]))
            && (forall k :: 0 <= k < |at| ==>
                  && at[k] < |entities| && rows[|profiles| + k].voiceProfile == None
                  && rows[|profiles| + k].entity == Some(entities[at[k]]))
            && (forall k, l :: 0 <= k < l < |at| ==> at[k] < at[l])
            && (forall j :: 0 <= j < |entities| ==> (j in at <==> Lone(entities[j], profiles)))
  {
    at := LoneInOrder(entities, profiles);
    forall j | 0 <= j < |entities| ensures !Linked(entities[j], profiles) <==> Lone(entities[j], profiles) {
      LoneIsUnlinked(entities[j], profiles);
    }
    hide Linked, Lone, Unlinked, FirstLink;
  }

  // ---- conservation ----

  /** The entity at `k` is the first that names the profile. */
  ghost predicate NamesFirst(entities: seq<RegistryEntity>, id: Id, k: int) {
    && 0 <= k < |entities| && id != "" && entities[k].voiceProfileId == Some(id)
    && forall j :: 0 <= j < k ==> entities[j].voiceProfileId != Some(id)
  }

  lemma {:induction false} FirstLinkIsFirst(entities: seq<RegistryEntity>, id: Id)
    ensures FirstLink(entities, id).None? ==>
              id == "" || forall k :: 0 <= k < |entities| ==> entities[k].voiceProfileId != Some(id)
    ensures FirstLink(entities, id).Some? ==>
              exists k :: NamesFirst(entities, id, k) && entities[k] == FirstLink(entities, id).value
  {
    if id == "" || entities == [] {
    } else if entities[0].voiceProfileId == Some(id) {
      assert NamesFirst(entities, id, 0);
    } else {
      var rest := entities[1..];
      FirstLinkIsFirst(rest, id);
      if FirstLink(rest, id).Some? {
        var k :| NamesFirst(rest, id, k) && rest[k] == FirstLink(rest, id).value;
        forall j | 0 <= j < k + 1 ensures entities[j].voiceProfileId != Some(id) {
          if j > 0 { assert entities[j] == rest[j - 1]; }
        }
        assert NamesFirst(entities, id, k + 1);
      } else {
        forall k | 0 <= k < |entities| ensures entities[k].voiceProfileId != Some(id) {
          if k > 0 { assert entities[k] == rest[k - 1]; }
        }
      }
    }
  }

  lemma {:induction false} UnlinkedMembers(entities: seq<RegistryEntity>, profiles: seq<VoiceProfile>)
    ensures forall e :: e in Unlinked(entities, profiles) <==> e in entities && !Linked(e, profiles)
  {
    hide Linked;
    if entities != [] {
      var front, last := entities[..|entities| - 1], entities[|entities| - 1];
      UnlinkedMembers(front, profiles);
      assert entities == front + [last];
    }
  }

  ghost predicate IdsDiffer(entities: seq<RegistryEntity>) {
    forall i, j :: 0 <= i < j < |entities| ==> entities[i].id != entities[j].id
  }

  ghost predicate DistinctIds(profiles: seq<VoiceProfile>, entities: seq<RegistryEntity>) {
    && (forall i, j :: 0 <= i < j < |profiles| ==> profiles[i].id != profiles[j].id)
    && IdsDiffer(entities)
    && (forall i, j :: 0 <= i < |profiles| && 0 <= j < |entities| ==> profiles[i].id != entities[j].id)
  }

  lemma RowShape(profiles: seq<VoiceProfile>, entities: seq<RegistryEntity>, row: UnifiedPerson)
    requires row in Rows(profiles, entities)
    ensures (exists i :: 0 <= i < |profiles| && row == FromProfile(profiles[i], FirstLink(entities, profiles[i].id))) ||
            (exists j :: 0 <= j < |entities| && !Linked(entities[j], profiles) && row == FromEntity(entities[j]))
  {
    hide Linked, FirstLink, FromProfile, FromEntity, Unlinked, Rows;
    var rows, free := Rows(profiles, entities), Unlinked(entities, profiles);
    UnlinkedMembers(entities, profiles);
    var i :| 0 <= i < |rows| && rows[i] == row;
    RowAt(profiles, entities, i);
    if i >= |profiles| {
      var e := free[i - |profiles|];
      assert e in free;
      var j :| 0 <= j < |entities| && entities[j] == e;
    }
  }

  lemma RowAt(profiles: seq<VoiceProfile>, entities: seq<RegistryEntity>, i: nat)
    requires i < |Rows(profiles, entities)|
    ensures |Rows(profiles, entities)| == |profiles| + |Unlinked(entities, profiles)|
    ensures Rows(profiles, entities)[i] ==
            if i < |profiles| then FromProfile(profiles[i], FirstLink(entities, profiles[i].id))
            else FromEntity(Unlinked(entities, profiles)[i - |profiles|])
  {
    hide Linked, FirstLink, FromProfile, FromEntity, Unlinked;
  }

  /** Every profile has its row, carrying the first entity linked to it. */
  lemma EveryProfileHasItsRow(le: Collation, profiles: seq<VoiceProfile>, entities: seq<RegistryEntity>, i: nat)
    requires i < |profiles|
    ensures FromProfile(profiles[i], FirstLink(entities, profiles[i].id)) in Merged(le, profiles, entities)
  {
    hide FirstLink, FromProfile, FromEntity, Unlinked;
    MergedPermutes(le, profiles, entities);
    var row := FromProfile(profiles[i], FirstLink(entities, profiles[i].id));
    assert Rows(profiles, entities)[i] == row;
    assert row in multiset(Merged(le, profiles, entities));
  }

  /** The entity names no profile, or the empty one, or one we do not have. */
  ghost predicate Lone(e: RegistryEntity, profiles: seq<VoiceProfile>) {
    || e.voiceProfileId == None || e.voiceProfileId == Some("")
    || forall k :: 0 <= k < |profiles| ==> Some(profiles[k].id) != e.voiceProfileId
  }

  lemma LoneIsUnlinked(e: RegistryEntity, profiles: seq<VoiceProfile>)
    ensures Lone(e, profiles) <==> !Linked(e, profiles)
  {
  }

  /** An entity with no profile we have has its row. */
  lemma EveryLoneEntityHasItsRow(le: Collation, profiles: seq<VoiceProfile>, entities: seq<RegistryEntity>, j: nat)
    requires j < |entities| && Lone(entities[j], profiles)
    ensures FromEntity(entities[j]) in Merged(le, profiles, entities)
  {
    LoneIsUnlinked(entities[j], profiles);
    hide FirstLink, FromProfile, FromEntity, Linked, Unlinked;
    var e, free := entities[j], Unlinked(entities, profiles);
    UnlinkedMembers(entities, profiles);
    var k :| 0 <= k < |free| && free[k] == e;
    var rows := Rows(profiles, entities);
    assert rows[|profiles| + k] == FromEntity(e);
    hide Rows, Merged;
    MergedPermutes(le, profiles, entities);
    assert FromEntity(e) in multiset(rows);
    assert FromEntity(e) in multiset(Merged(le, profiles, entities));
  }

  /** No other rows exist. */
  lemma NoOtherRows(le: Collation, profiles: seq<VoiceProfile>, entities: seq<RegistryEntity>, row: UnifiedPerson)
    requires row in Merged(le, profiles, entities)
    ensures (exists i :: 0 <= i < |profiles| && row == FromProfile(profiles[i], FirstLink(entities, profiles[i].id))) ||
            (exists j :: 0 <= j < |entities| && !Linked(entities[j], profiles) && row == FromEntity(entities[j]))
  {
    hide Merged, Rows, FirstLink, Linked, FromProfile, FromEntity;
    MergedPermutes(le, profiles, entities);
    assert row in multiset(Rows(profiles, entities));
    RowShape(profiles, entities, row);
  }

  lemma {:induction false} UnlinkedIds(entities: seq<RegistryEntity>, profiles: seq<VoiceProfile>)
    requires IdsDiffer(entities)
    ensures IdsDiffer(Unlinked(entities, profiles))
  {
    hide Linked;
    if entities != [] {
      var front, last := entities[..|entities| - 1], entities[|entities| - 1];
      UnlinkedIds(front, profiles);
      UnlinkedMembers(front, profiles);
      var free := Unlinked(front, profiles);
      forall i | 0 <= i < |free| ensures free[i].id != last.id {
        assert free[i] in free;
        var k :| 0 <= k < |front| && front[k] == free[i];
        assert entities[k] == free[i];
      }
      assert IdsDiffer(free + [last]);
      assert Unlinked(entities, profiles) == free + if Linked(last, profiles) then [] else [last];
      assert free + [] == free;
    }
  }

  /** With distinct ids no two rows are for the same person: the keys of the rows,
      as many as profiles and lone entities together, are all different. */
  lemma RowsAreForDifferentPeople(le: Collation, profiles: seq<VoiceProfile>, entities: seq<RegistryEntity>)
    requires DistinctIds(profiles, entities)
    ensures |Merged(le, profiles, entities)| == |profiles| + |Unlinked(entities, profiles)|
    ensures forall i, j :: 0 <= i < j < |Merged(le, profiles, entities)| ==>
              Merged(le, profiles, entities)[i].key != Merged(le, profiles, entities)[j].key
  {
    RowKeysDiffer(profiles, entities);
    MergedPermutes(le, profiles, entities);
    var rows, people := Rows(profiles, entities), Merged(le, profiles, entities);
    assert |rows| == |profiles| + |Unlinked(entities, profiles)|;
    assert |multiset(rows)| == |rows| && |multiset(people)| == |people|;
    hide *;
    PermutedKeysDiffer(rows, people);
  }

  ghost predicate KeysDiffer(rows: seq<UnifiedPerson>) {
    forall i, j :: 0 <= i < j < |rows| ==> rows[i].key != rows[j].key
  }

  lemma RowKeysDiffer(profiles: seq<VoiceProfile>, entities: seq<RegistryEntity>)
    requires DistinctIds(profiles, entities)
    ensures KeysDiffer(Rows(profiles, entities))
  {
    hide Linked, FirstLink, Unlinked, Rows;
    UnlinkedIds(entities, profiles);
    UnlinkedMembers(entities, profiles);
    var rows, free := Rows(profiles, entities), Unlinked(entities, profiles);
    forall i, j | 0 <= i < j < |rows| ensures rows[i].key != rows[j].key {
      RowAt(profiles, entities, i);
      RowAt(profiles, entities, j);
      if i < |profiles| <= j {
        var e := free[j - |profiles|];
        assert e in free;
        var k :| 0 <= k < |entities| && entities[k] == e;
      }
    }
  }

  lemma PermutedKeysDiffer(a: seq<UnifiedPerson>, b: seq<UnifiedPerson>)
    requires KeysDiffer(a) && multiset(a) == multiset(b)
    ensures KeysDiffer(b)
  {
    forall i, j | 0 <= i < j < |b| ensures b[i].key != b[j].key {
      if b[i] == b[j] {
        TwiceInMultiset(b, i, j);
        OnceInMultiset(a, b[i]);
      } else {
        assert b[i] in multiset(a) && b[j] in multiset(a);
        var k :| 0 <= k < |a| && a[k] == b[i];
        var l :| 0 <= l < |a| && a[l] == b[j];
      }
    }
  }

  lemma TwiceInMultiset<T>(b: seq<T>, i: nat, j: nat)
    requires i < j < |b| && b[i] == b[j]
    ensures multiset(b)[b[i]] >= 2
  {
    assert b == b[..i] + [b[i]] + b[i + 1..j] + [b[j]] + b[j + 1..];
  }

  lemma {:induction false} OnceInMultiset(a: seq<UnifiedPerson>, p: UnifiedPerson)
    requires KeysDiffer(a)
    ensures multiset(a)[p] <= 1
  {
    if a != [] {
      OnceInMultiset(a[1..], p);
      assert a == [a[0]] + a[1..];
      forall k | 0 <= k < |a| - 1 ensures a[1..][k] != a[0] {
        assert a[1..][k] == a[k + 1];
      }
      assert a[0] !in a[1..];
    }
  }

  /** A row that shows a linked entity is the row of its profile. */
  lemma LinkedRow(
    le: Collation, profiles: seq<VoiceProfile>, entities: seq<RegistryEntity>, row: UnifiedPerson, e: RegistryEntity)
    requires row in Merged(le, profiles, entities) && row.entity == Some(e) && Linked(e, profiles)
    ensures FirstLink(entities, e.voiceProfileId.value) == Some(e)
  {
    hide Merged, FirstLink;
    NoOtherRows(le, profiles, entities, row);
    assert forall k :: 0 <= k < |entities| ==> FromEntity(entities[k]).entity == Some(entities[k]);
    var i :| 0 <= i < |profiles| && row == FromProfile(profiles[i], FirstLink(entities, profiles[i].id));
    FirstLinkIsFirst(entities, profiles[i].id);
  }

  lemma FirstLinkedShows(le: Collation, profiles: seq<VoiceProfile>, entities: seq<RegistryEntity>, e: RegistryEntity)
    returns (row: UnifiedPerson)
    requires Linked(e, profiles) && FirstLink(entities, e.voiceProfileId.value) == Some(e)
    ensures row in Merged(le, profiles, entities) && row.entity == Some(e)
  {
    hide Merged, FirstLink;
    var i :| 0 <= i < |profiles| && profiles[i].id == e.voiceProfileId.value;
    EveryProfileHasItsRow(le, profiles, entities, i);
    row := FromProfile(profiles[i], FirstLink(entities, profiles[i].id));
  }

  /** No earlier entity names the profile that the one at `k` names. */
  ghost predicate FirstNaming(entities: seq<RegistryEntity>, k: nat)
    requires k < |entities|
  {
    forall i :: 0 <= i < k ==> entities[i].voiceProfileId != entities[k].voiceProfileId
  }

  lemma FirstNamingIsFirstLink(entities: seq<RegistryEntity>, j: nat)
    requires j < |entities|
    ensures entities[j].voiceProfileId.Some? && entities[j].voiceProfileId.value != "" ==>
              (FirstLink(entities, entities[j].voiceProfileId.value) == Some(entities[j]) <==>
               exists k :: 0 <= k <= j && entities[k] == entities[j] && FirstNaming(entities, k))
  {
    hide FirstLink;
    var e := entities[j];
    if e.voiceProfileId.Some? && e.voiceProfileId.value != "" {
      var id := e.voiceProfileId.value;
      FirstLinkIsFirst(entities, id);
      var k :| NamesFirst(entities, id, k) && entities[k] == FirstLink(entities, id).value;
      assert FirstNaming(entities, k);
      if l :| 0 <= l <= j && entities[l] == e && FirstNaming(entities, l) {
        assert k == l;
      }
    }
  }

  /** An entity shows in some row exactly when it has no profile we have or is the
      first linked to its profile: the others are folded away. */
  lemma EntityShowsOrIsFolded(le: Collation, profiles: seq<VoiceProfile>, entities: seq<RegistryEntity>, j: nat)
    requires j < |entities|
    ensures (exists row :: row in Merged(le, profiles, entities) && row.entity == Some(entities[j])) <==>
            || Lone(entities[j], profiles)
            || exists k :: 0 <= k <= j && entities[k] == entities[j] && FirstNaming(entities, k)
  {
    hide Merged, FirstLink;
    var e := entities[j];
    LoneIsUnlinked(e, profiles);
    FirstNamingIsFirstLink(entities, j);
    if !Linked(e, profiles) {
      EveryLoneEntityHasItsRow(le, profiles, entities, j);
      assert FromEntity(e).entity == Some(e);
    } else if FirstLink(entities, e.voiceProfileId.value) == Some(e) {
      var row := FirstLinkedShows(le, profiles, entities, e);
    } else {
      forall row | row in Merged(le, profiles, entities) ensures row.entity != Some(e) {
        if row.entity == Some(e) {
          LinkedRow(le, profiles, entities, row, e);
        }
      }
    }
  }

  /** A row's provenance says which halves it has, so the review queue's rows
      (heard and unconfirmed) always have a voice profile. */
  lemma ProvenanceIsHonest(
    le: Collation, profiles: seq<VoiceProfile>, entities: seq<RegistryEntity>, row: UnifiedPerson)
    requires row in Merged(le, profiles, entities)
    ensures row.provenance == Both <==> row.voiceProfile.Some? && row.entity.Some?
    ensures row.provenance == Heard <==> row.voiceProfile.Some? && row.entity.None?
    ensures row.provenance == Mentioned <==> row.voiceProfile.None? && row.entity.Some?
    ensures row.unconfirmed ==> row.voiceProfile.Some? && row.voiceProfile.value.status == Unconfirmed
  {
    hide Merged;
    NoOtherRows(le, profiles, entities, row);
  }

  /** Each row carries what its halves say: identity, counts, consent and flags are
      the profile's, mentions the entity's, and the name is the profile's if it has
      one. */
  lemma RowShowsItsHalves(le: Collation, profiles: seq<VoiceProfile>, entities: seq<RegistryEntity>, row: UnifiedPerson)
    requires row in Merged(le, profiles, entities)
    ensures row.voiceProfile.Some? ==>
              var p := row.voiceProfile.value;
              && p in profiles
              && row.key == p.id && row.detailTo == ContactPage(p.id)
              && row.recordingCount == p.recordingCount && row.consentStatus == Some(p.consentStatus)
              && row.redacted == p.redacted && row.isSelf == p.isSelf
              && (row.unconfirmed <==> p.status == Unconfirmed)
              && (p.name.Some? ==> row.name == p.name)
    ensures row.entity.Some? ==>
              var e := row.entity.value;
              && e in entities
              && row.mentionCount == e.mentionCount
              && (row.voiceProfile.None? || row.voiceProfile.value.name.None? ==> row.name == Some(e.canonicalName))
    ensures row.voiceProfile.None? ==>
              && row.entity.Some?
              && row.key == row.entity.value.id && row.detailTo == EntityPage(row.entity.value.id)
              && row.recordingCount == 0 && row.consentStatus == None
              && !row.redacted && !row.isSelf && !row.unconfirmed
              && row.lastActivityAt == Some(row.entity.value.lastSeenAt)
    ensures row.entity.None? ==> row.mentionCount == 0 && row.name == row.voiceProfile.value.name
  {
    hide Merged, FirstLink, Linked;
    NoOtherRows(le, profiles, entities, row);
    forall i | 0 <= i < |profiles| ensures FirstLink(entities, profiles[i].id).Some? ==>
        FirstLink(entities, profiles[i].id).value in entities
    {
      FirstLinkIsFirst(entities, profiles[i].id);
    }
  }
}
