/** The NPC editor screen: the publish-eligibility gate, the records that the screen's
    actions write to the document store, which controls it shows to whom, and the
    edit session that keeps a draft of the remote NPC and a dirty flag. */
module NpcEdit {
  import opened Text
  import SearchString

  /** A JSON value, for the parts of an NPC this model only carries along. */
  datatype Json =
    | JNull
    | JBool(b: bool)
    | JNumber(n: int)
    | JString(s: string)
    | JArray(items: seq<Json>)
    | JObject(fields: map<string, Json>)

  /** An NPC document. A text field that is absent is the empty string, an absent
      list is the empty list and an absent `published` is false: the screen treats
      each of them the same way. */
  datatype Npc = Npc(
    id: Option<string>,                 // the document id the snapshot adds
    uid: string,                        // the owner's user id
    name: string,
    description: string,
    traits: string,
    createdBy: string,
    language: string,
    attacks: seq<Json>,
    weaponattacks: seq<Json>,
    published: bool,
    searchString: Option<seq<string>>,
    publishedAt: Option<int>,
    rest: map<string, Json>)            // affinities, extra, spells, notes, rare gear, tags, ...

  // ---------------------------------------------------------------------------
  // Publish eligibility

  /** Why the publish button is disabled (the translated messages of the source). */
  datatype Reason =
    | NeedsName
    | NeedsDescription
    | NeedsTraits
    | NeedsCreatedBy
    | NeedsLanguage
    | NeedsAttack

  datatype PublishCheck = PublishCheck(disabled: bool, message: Option<Reason>)

  /** The rules, in the order the gate tries them. */
  const RuleOrder: seq<Reason> :=
    [NeedsName, NeedsDescription, NeedsTraits, NeedsCreatedBy, NeedsLanguage, NeedsAttack]

  /** Whether the NPC passes the rule whose failure the reason names. */
  predicate Passes(n: Npc, rule: Reason) {
    match rule
    case NeedsName => n.name != ""
    case NeedsDescription => n.description != ""
    case NeedsTraits => n.traits != ""
    case NeedsCreatedBy => n.createdBy != ""
    case NeedsLanguage => n.language != ""
    case NeedsAttack => |n.weaponattacks| > 0 || |n.attacks| > 0
  }

  /** Rule k of `rules` is the first one the NPC fails. */
  predicate FailsFirstAt(n: Npc, rules: seq<Reason>, k: int) {
    0 <= k < |rules| && !Passes(n, rules[k]) && forall j :: 0 <= j < k ==> Passes(n, rules[j])
  }

  /** Reference definition: the first rule of `rules` that the NPC fails. */
  function FirstFailing(n: Npc, rules: seq<Reason>): (r: Option<Reason>)
    ensures r.None? <==> forall k :: 0 <= k < |rules| ==> Passes(n, rules[k])
    ensures r.Some? ==> exists k :: FailsFirstAt(n, rules, k) && rules[k] == r.value
    decreases |rules|
  {
    if rules == [] then None
    else if !Passes(n, rules[0]) then
      assert FailsFirstAt(n, rules, 0);
      Some(rules[0])
    else
      var r := FirstFailing(n, rules[1..]);
      assert r.Some? ==> exists k :: FailsFirstAt(n, rules, k) && rules[k] == r.value by {
        if r.Some? {
          var k :| FailsFirstAt(n, rules[1..], k) && rules[1..][k] == r.value;
          assert forall j :: 0 < j < k + 1 ==> Passes(n, rules[j]) by {
            forall j | 0 < j < k + 1 ensures Passes(n, rules[j]) {
              assert rules[j] == rules[1..][j - 1];
            }
          }
          assert FailsFirstAt(n, rules, k + 1);
        }
      }
      r
  }

  /** At most one rule is the first to fail. */
  lemma FailsFirstAtUnique(n: Npc, rules: seq<Reason>, i: int, k: int)
    requires FailsFirstAt(n, rules, i) && FailsFirstAt(n, rules, k)
    ensures i == k
  {
  }

  /** canPublish(): the first rule, in the fixed order, that the NPC fails, or enabled
      with no message when every rule holds. */
  function CanPublish(n: Npc): (r: PublishCheck)
    ensures r.disabled <==> r.message.Some?
    ensures r.message == FirstFailing(n, RuleOrder)
    ensures !r.disabled <==>
      n.name != "" && n.description != "" && n.traits != "" && n.createdBy != ""
      && n.language != "" && (|n.weaponattacks| > 0 || |n.attacks| > 0)
  {
    assert RuleOrder[1..][1..][1..][1..][1..][1..] == [];
    if n.name == "" then PublishCheck(true, Some(NeedsName))
    else if n.description == "" then PublishCheck(true, Some(NeedsDescription))
    else if n.traits == "" then PublishCheck(true, Some(NeedsTraits))
    else if n.createdBy == "" then PublishCheck(true, Some(NeedsCreatedBy))
    else if n.language == "" then PublishCheck(true, Some(NeedsLanguage))
    else if |n.weaponattacks| > 0 || |n.attacks| > 0 then PublishCheck(false, None)
    else PublishCheck(true, Some(NeedsAttack))
  }

  /** The reason at position k is reported exactly when rule k fails and every earlier
      rule holds. */
  lemma CanPublishRuleOrder(n: Npc, k: nat)
    requires k < |RuleOrder|
    ensures CanPublish(n).message == Some(RuleOrder[k]) <==> FailsFirstAt(n, RuleOrder, k)
  {
    var r := FirstFailing(n, RuleOrder);
    if r == Some(RuleOrder[k]) {
      var i :| FailsFirstAt(n, RuleOrder, i) && RuleOrder[i] == r.value;
      assert i == k;
    }
    if FailsFirstAt(n, RuleOrder, k) {
      var i :| FailsFirstAt(n, RuleOrder, i) && RuleOrder[i] == r.value;
      FailsFirstAtUnique(n, RuleOrder, i, k);
    }
  }

  // ---------------------------------------------------------------------------
  // The records the screen writes

  /** a and b agree on every field except published, searchString and publishedAt. */
  predicate SameExceptPublication(a: Npc, b: Npc) {
    a.(published := b.published, searchString := b.searchString, publishedAt := b.publishedAt) == b
  }

  /** a and b agree on every field except id, uid and published. */
  predicate SameExceptOwnership(a: Npc, b: Npc) {
    a.(id := b.id, uid := b.uid, published := b.published) == b
  }

  /** The document publish() writes: the draft, published, indexed and time-stamped. */
  function PublishedRecord(d: Npc, now: int): (r: Npc)
    ensures r.published && r.publishedAt == Some(now)
    ensures r.searchString == Some(SearchString.SearchTokens(d.name))
    ensures SameExceptPublication(r, d)
    ensures CanPublish(r) == CanPublish(d)
  {
    d.(published := true,
       searchString := Some(SearchString.SearchTokens(d.name)),
       publishedAt := Some(now))
  }

  /** The document unPublish() writes: the draft with only `published` cleared. */
  function UnpublishedRecord(d: Npc): (r: Npc)
    ensures !r.published
    ensures r.searchString == d.searchString && r.publishedAt == d.publishedAt
    ensures SameExceptPublication(r, d)
  {
    d.(published := false)
  }

  /** Unpublishing a published record keeps the index and time stamp publishing set. */
  lemma UnpublishKeepsIndex(d: Npc, now: int)
    ensures UnpublishedRecord(PublishedRecord(d, now)).searchString
      == Some(SearchString.SearchTokens(d.name))
    ensures UnpublishedRecord(PublishedRecord(d, now)).publishedAt == Some(now)
    ensures !UnpublishedRecord(PublishedRecord(d, now)).published
  {
  }

  /** Publishing again after a new time stamp replaces the time stamp and nothing else. */
  lemma RepublishOnlyRestamps(d: Npc, t1: int, t2: int)
    ensures PublishedRecord(UnpublishedRecord(PublishedRecord(d, t1)), t2) == PublishedRecord(d, t2)
  {
  }

  // ---------------------------------------------------------------------------
  // Which controls the screen shows

  /** What the screen renders for a user, as far as actions are concerned. */
  datatype Controls = Controls(
    rendered: bool,               // false while there is no draft (the screen renders null)
    copyButton: bool,             // "Copy and Edit Sheet"
    ownerPanel: bool,             // created-by, language, tags and every edit section
    publishButton: bool,
    publishDisabled: bool,
    unpublishButton: bool,
    criteriaMessage: Option<Reason>,
    saveButton: bool,
    exported: Option<Npc>)        // the record handed to the JSON export

  /** The controls for the remote record, the draft, the dirty flag and the signed-in
      user (None when signed out). Ownership is decided on the REMOTE record's uid; the
      choice between publish and unpublish on the draft's `published`. */
  function Render(remote: Option<Npc>, draft: Option<Npc>, isUpdated: bool, user: Option<string>): (c: Controls)
    requires draft.Some? ==> remote.Some?
    ensures !c.rendered ==> c == Controls(false, false, false, false, false, false, None, false, None)
    ensures c.rendered <==> draft.Some?
    ensures c.copyButton <==> c.rendered && user.Some? && user.value != remote.value.uid
    ensures c.ownerPanel <==> c.rendered && user.Some? && user.value == remote.value.uid
    ensures !(c.copyButton && c.ownerPanel)
    ensures c.publishButton || c.unpublishButton ==> c.ownerPanel
    ensures !(c.publishButton && c.unpublishButton)
    ensures c.publishButton <==> c.ownerPanel && !draft.value.published
    ensures c.publishButton ==> (c.publishDisabled <==> CanPublish(draft.value).disabled)
    ensures c.publishButton && !c.publishDisabled <==>
      c.ownerPanel && !draft.value.published && !CanPublish(draft.value).disabled
    ensures c.unpublishButton <==> c.ownerPanel && draft.value.published
    ensures c.criteriaMessage == (if c.ownerPanel then CanPublish(draft.value).message else None)
    ensures c.criteriaMessage.Some? <==> c.ownerPanel && CanPublish(draft.value).disabled
    ensures c.saveButton <==> c.rendered && isUpdated
    ensures c.rendered ==> c.exported == remote
  {
    if draft.None? then Controls(false, false, false, false, false, false, None, false, None)
    else
      var npc := remote.value;
      var d := draft.value;
      var signedIn := user.Some?;
      var owner := signedIn && user.value == npc.uid;
      var check := CanPublish(d);
      Controls(
        rendered := true,
        copyButton := signedIn && user.value != npc.uid,
        ownerPanel := owner,
        publishButton := owner && !d.published,
        publishDisabled := check.disabled,
        unpublishButton := owner && d.published,
        criteriaMessage := if owner then check.message else None,
        saveButton := isUpdated,
        exported := remote)
  }

  // ---------------------------------------------------------------------------
  // The edit session

  class EditSession {
    var remote: Option<Npc>     // the live document snapshot
    var draft: Option<Npc>      // npcTemp
    var isUpdated: bool         // unsaved edits

    /** The draft exists only once a snapshot has arrived. */
    ghost predicate Valid()
      reads this
    {
      draft.Some? ==> remote.Some?
    }

    /** The screen mounts before the first snapshot arrives. */
    constructor ()
      ensures Valid()
      ensures remote == None && draft == None && !isUpdated
    {
      remote, draft, isUpdated := None, None, false;
    }

    /** A new snapshot (or its loss) replaces the draft wholesale, unsaved edits
        included; the dirty flag keeps its value. */
    method RemoteChanged(snapshot: Option<Npc>)
      modifies this
      ensures Valid()
      ensures remote == snapshot && draft == snapshot && isUpdated == old(isUpdated)
    {
      remote := snapshot;
      draft := snapshot;
    }

    /** updateNPC(d): every edit control hands over a whole new draft. */
    method UpdateNpc(d: Npc)
      requires Valid() && draft.Some?
      modifies this
      ensures Valid()
      ensures draft == Some(d) && isUpdated && remote == old(remote)
    {
      isUpdated := true;
      draft := Some(d);
    }

    /** The keydown listener: Ctrl together with lower-case "s" suppresses the browser's
        own action and writes the draft. It leaves the dirty flag alone. With no draft
        yet the write carries no document and is refused, so nothing is written. */
    method HandleCtrlS(ctrlKey: bool, key: string) returns (preventDefault: bool, written: Option<Npc>)
      ensures preventDefault <==> ctrlKey && key == "s"
      ensures written.Some? <==> preventDefault && draft.Some?
      ensures written.Some? ==> written == draft
    {
      preventDefault := ctrlKey && key == "s";
      written := if preventDefault then draft else None;
    }

    /** The floating Save button: clears the dirty flag and writes the draft as it is. */
    method Save() returns (written: Npc)
      requires draft.Some?
      modifies this`isUpdated
      ensures !isUpdated
      ensures written == old(draft.value)
    {
      isUpdated := false;
      written := draft.value;
    }

    /** publish(): clears the dirty flag and writes the published record; the draft
        itself only changes when the store's snapshot comes back. */
    method Publish(now: int) returns (written: Npc)
      requires draft.Some?
      modifies this`isUpdated
      ensures !isUpdated
      ensures written == PublishedRecord(draft.value, now)
    {
      isUpdated := false;
      written := PublishedRecord(draft.value, now);
    }

    /** unPublish(): clears the dirty flag and writes the draft with `published` false. */
    method UnPublish() returns (written: Npc)
      requires draft.Some?
      modifies this`isUpdated
      ensures !isUpdated
      ensures written == UnpublishedRecord(draft.value)
    {
      isUpdated := false;
      written := UnpublishedRecord(draft.value);
    }

    /** copyNpc(npcTemp) for the signed-in user: a copy of the draft that belongs to
        the user, has no id and is not published; the session is untouched. */
    method CopyNpc(user: string) returns (data: Npc)
      requires draft.Some?
      ensures data.uid == user && data.id == None && !data.published
      ensures SameExceptOwnership(data, draft.value)
    {
      data := draft.value;
      data := data.(uid := user);
      data := data.(id := None);
      data := data.(published := false);
    }

    /** The controls shown to `user` in the current state. */
    function View(user: Option<string>): (c: Controls)
      reads this
      requires Valid()
      ensures c.rendered <==> draft.Some?
      ensures c.saveButton <==> draft.Some? && isUpdated
    {
      Render(remote, draft, isUpdated, user)
    }
  }

  /** A session in which an owner edits, saves, and then sees a remote change
      overwrite a later unsaved edit. */
  method EditSaveAndOverwrite(n: Npc, edited: Npc, later: Npc, incoming: Npc)
  {
    var s := new EditSession();
    s.RemoteChanged(Some(n));
    assert !s.isUpdated && s.draft == Some(n);
    s.UpdateNpc(edited);
    assert s.isUpdated;
    var w := s.Save();
    assert w == edited && !s.isUpdated;
    s.UpdateNpc(later);
    s.RemoteChanged(Some(incoming));
    assert s.draft == Some(incoming) && s.isUpdated;
    s.RemoteChanged(Some(incoming));
    assert s.draft == Some(incoming) && s.isUpdated;
  }
}
