/**
 * DeCamp's Event.cs: events that carry a list of results, each result an
 * action on the campaign state (add, remove or edit a character) with an
 * optional sub-event.  Applying an event walks its results in list order,
 * applying each result and then its sub-event; reverting walks the same
 * list, again in forward order, reverting each sub-event before its result.
 * While they run, results and attribute mods fill in the data their revert
 * needs (the key a character was added under, the character a removal took
 * out, the attribute a replacement overwrote).
 *
 * Events, results and mods are values here: Apply and Revert return the
 * event with its undo data filled in, together with the exception that
 * stopped the walk, if any.  The campaign state and the characters are
 * objects that the walk updates in place.  Each method is proved against a
 * function over a World, the party dictionary and every character's sheet.
 */
module Events {
  import opened Wrappers
  import opened Characters

  /** The `results` list of an event, which is null until a result is added. */
  datatype ResultList = Null | List(items: seq<EventResult>)

  /** An Event: its type, its owner (null for an unclaimed event), the
      viewer and editor sets (null meaning everyone), the virtual flag and
      the results list. */
  datatype Event = Event(
    kind: string,
    owner: Option<string>,
    viewers: Option<set<string>>,
    editors: Option<set<string>>,
    isVirtual: bool,
    results: ResultList)

  /** An EventResult: its type, creator and summary, an optional sub-event,
      and the action of its concrete class. */
  datatype EventResult = EventResult(
    kind: string,
    creator: string,
    summary: string,
    subEvent: Option<Event>,
    action: Action)

  /** The three concrete result classes with their undo caches: the key an
      added character received (`charId` in the source), the character a removal took out. */
  datatype Action =
    | CharacterAdd(character: Character, addedKey: Option<string>)
    | CharacterRemove(charId: string, removed: Option<Character>)
    | CharacterEdit(charId: string, mods: seq<AttributeMod>)

  /** AttributeAdjustment and AttributeReplacement; `oldValue` is the
      replacement's snapshot of the raw attribute (null when absent). */
  datatype AttributeMod =
    | Adjustment(key: string, offset: Value)
    | Replacement(key: string, value: Value, kind: AttrType, oldValue: Option<Attribute>)

  /** The list of results, empty when it is null. */
  function Results(e: Event): seq<EventResult>
  {
    if e.results.Null? then [] else e.results.items
  }

  // ---------------------------------------------------------------------
  // Permissions.  `gmKey` is the campaign's GM key (Campaign.gmKey).
  // ---------------------------------------------------------------------

  predicate IsOwner(e: Event, player: string)
  {
    e.owner == Some(player)
  }

  predicate CanView(e: Event, player: string, gmKey: string)
  {
    IsOwner(e, player) || player == gmKey || e.viewers.None? || player in e.viewers.value
  }

  predicate CanViewNotes(e: Event, player: string)
  {
    IsOwner(e, player)
  }

  predicate CanEdit(e: Event, player: string, gmKey: string)
  {
    IsOwner(e, player) || player == gmKey || e.editors.None? || player in e.editors.value
  }

  predicate CanAssign(e: Event, player: string, gmKey: string)
  {
    player == gmKey
  }

  predicate CanClaim(e: Event, player: string)
  {
    e.owner.None?
  }

  predicate CanSetPermissions(e: Event, player: string, gmKey: string)
  {
    IsOwner(e, player) || player == gmKey
  }

  /** The permissions form a hierarchy: whoever may set permissions (the
      owner and the GM) may view and edit; the GM may assign; reading the
      notes is the owner's alone, so nobody reads the notes of a claimable
      event; and a player who is neither owner nor GM may view or edit
      exactly when the set is null or holds them. */
  lemma PermissionHierarchy(e: Event, player: string, gmKey: string)
    ensures CanSetPermissions(e, player, gmKey) ==> CanView(e, player, gmKey) && CanEdit(e, player, gmKey)
    ensures CanAssign(e, player, gmKey) ==> CanSetPermissions(e, player, gmKey)
    ensures CanViewNotes(e, player) ==> CanSetPermissions(e, player, gmKey) && !CanClaim(e, player)
    ensures CanClaim(e, player) ==> !CanViewNotes(e, player) && (CanSetPermissions(e, player, gmKey) <==> player == gmKey)
    ensures !IsOwner(e, player) && player != gmKey ==>
      && !CanSetPermissions(e, player, gmKey) && !CanAssign(e, player, gmKey) && !CanViewNotes(e, player)
      && (CanView(e, player, gmKey) <==> e.viewers.None? || player in e.viewers.value)
      && (CanEdit(e, player, gmKey) <==> e.editors.None? || player in e.editors.value)
  {
  }

  /** addResult: creates the list when it is null and appends the result;
      nothing else about the event changes. */
  function AddResult(e: Event, r: EventResult): (e': Event)
    ensures e'.results.List? && Results(e') == Results(e) + [r]
    ensures |Results(e')| == |Results(e)| + 1 && Results(e')[..|Results(e)|] == Results(e)
    ensures e' == e.(results := e'.results)
  {
    e.(results := List(Results(e) + [r]))
  }

  // ---------------------------------------------------------------------
  // The campaign state: the party dictionary.
  // ---------------------------------------------------------------------

  /** The set of keys whose length is at least that of `key`. */
  function LongKeys(keys: set<string>, key: string): set<string>
  {
    set k | k in keys && |k| >= |key|
  }

  lemma {:induction false} SubsetSize<T>(a: set<T>, b: set<T>)
    requires a <= b
    ensures |a| <= |b|
    decreases a
  {
    if a != {} {
      var x :| x in a;
      SubsetSize(a - {x}, b - {x});
    }
  }

  /** Lengthening a taken key leaves fewer keys at least as long. */
  lemma LongKeysShrink(keys: set<string>, key: string)
    requires key in keys
    ensures |LongKeys(keys, key + "#")| < |LongKeys(keys, key)|
  {
    var a, b := LongKeys(keys, key + "#"), LongKeys(keys, key);
    assert key in b && key !in a;
    SubsetSize(a, b - {key});
  }

  /** The key addCharacter gives a character: `key` itself when it is
      free, otherwise `key` extended with '#' until it is. */
  function FreshKey(keys: set<string>, key: string): (r: string)
    ensures r !in keys
    ensures |key| <= |r| && r[..|key|] == key
    ensures key !in keys ==> r == key
    decreases |LongKeys(keys, key)|
  {
    if key !in keys then key
    else
      LongKeysShrink(keys, key);
      FreshKey(keys, key + "#")
  }

  /** CampaignState's party: characters under unique keys.  The class of
      the source is not part of this model; it is modelled as the party
      dictionary, and the key for a new character (FreshKey) stands in for
      the unknown choice. */
  class CampaignState {
    var party: map<string, Character>

    constructor ()
      ensures party == map[]
    {
      party := map[];
    }

    /** getCharacter: the character under `key`, or null. */
    function GetCharacter(key: string): (r: Option<Character>)
      reads this
      ensures r.None? <==> key !in party
      ensures r.Some? ==> r.value == party[key]
    {
      if key in party then Some(party[key]) else None
    }

    /** addCharacter: stores `c` under a key that was not in use, its name
        or the name extended with '#', and returns the key. */
    method AddCharacter(c: Character) returns (key: string)
      modifies this`party
      ensures key !in old(party) && key == FreshKey(old(party).Keys, c.name)
      ensures party == old(party)[key := c]
    {
      key := c.name;
      while key in party
        decreases |LongKeys(party.Keys, key)|
        invariant party == old(party)
        invariant |c.name| <= |key| && key[..|c.name|] == c.name
        invariant FreshKey(party.Keys, key) == FreshKey(party.Keys, c.name)
      {
        LongKeysShrink(party.Keys, key);
        key := key + "#";
      }
      party := party[key := c];
    }

    /** removeCharacter: deletes the key, if it is there. */
    method RemoveCharacter(key: string)
      modifies this`party
      ensures party == old(party) - {key}
      ensures key !in old(party) ==> party == old(party)
    {
      party := party - {key};
    }
  }

  // ---------------------------------------------------------------------
  // The state a walk changes, as a value.
  // ---------------------------------------------------------------------

  /** What a walk can see of a character: its name, which chooses its key
      when it is added, and its attribute dictionary. */
  datatype Sheet = Sheet(name: string, attributes: map<string, Attribute>)

  /** The party and the sheets of the characters a walk may touch. */
  datatype World = World(party: map<string, Character>, sheets: map<Character, Sheet>)

  /** The outcome of a step: the new state, the item with its undo data
      filled in, and the exception that ended the walk, if any. */
  datatype Outcome<S, T> = Outcome(state: S, item: T, failure: Option<Error>)

  /** The sheet of `c`; a character the world does not hold has an empty one. */
  function SheetOf(w: World, c: Character): Sheet
  {
    if c in w.sheets then w.sheets[c] else Sheet("", map[])
  }

  /** The world made of the state's party and the characters in `u`. */
  ghost function WorldOf(s: CampaignState, u: set<Character>): World
    reads s, u
  {
    World(s.party, map c | c in u :: Sheet(c.name, c.attributes))
  }

  /** The keys a list of mods touches. */
  function KeysOf(mods: seq<AttributeMod>): set<string>
  {
    set m | m in mods :: m.key
  }

  /** Two mods that differ at most in their undo snapshot. */
  predicate SameMod(a: AttributeMod, b: AttributeMod)
  {
    a.Adjustment? == b.Adjustment? && (a.Adjustment? ==> a == b) && (a.Replacement? ==> a == b.(oldValue := a.oldValue))
  }

  // ---------------------------------------------------------------------
  // Attribute mods on one character's dictionary.
  // ---------------------------------------------------------------------

  /** AttributeMod.apply.  An adjustment adjusts the attribute; a
      replacement first snapshots the raw attribute under its key, then sets
      the new value, and the snapshot stays even when the set throws. */
  function AppliedMod(attrs: map<string, Attribute>, m: AttributeMod): (r: Outcome<map<string, Attribute>, AttributeMod>)
    ensures SameMod(r.item, m)
    ensures m.Replacement? ==> r.item.oldValue == Lookup(attrs, m.key)
    ensures r.failure.Some? ==> r.state == attrs
    ensures forall k :: k != m.key ==> Lookup(r.state, k) == Lookup(attrs, k)
    ensures m.Replacement? && r.failure.None? ==> Lookup(r.state, m.key) == (if m.kind == Bool && m.value == BoolValue(false) then None else Some(Attribute(m.kind, m.value)))
  {
    match m
    case Adjustment(key, offset) =>
      (match AdjustEntry(attrs, key, offset, false)
       case Ok(a) => Outcome(a, m, None)
       case Fail(err) => Outcome(attrs, m, Some(err)))
    case Replacement(key, value, kind, _) =>
      var m' := m.(oldValue := Lookup(attrs, key));
      (match SetEntry(attrs, key, value, kind)
       case Ok(a) => Outcome(a, m', None)
       case Fail(err) => Outcome(attrs, m', Some(err)))
  }

  /** AttributeMod.revert: the inverse adjustment, or the snapshot put back
      under the key (removing the key when the snapshot is null). */
  function RevertedMod(attrs: map<string, Attribute>, m: AttributeMod): (r: Outcome<map<string, Attribute>, AttributeMod>)
    ensures r.item == m
    ensures r.failure.Some? ==> r.state == attrs && m.Adjustment?
    ensures forall k :: k != m.key ==> Lookup(r.state, k) == Lookup(attrs, k)
    ensures m.Replacement? ==> r.failure.None? && Lookup(r.state, m.key) == m.oldValue
  {
    match m
    case Adjustment(key, offset) =>
      (match AdjustEntry(attrs, key, offset, true)
       case Ok(a) => Outcome(a, m, None)
       case Fail(err) => Outcome(attrs, m, Some(err)))
    case Replacement(key, _, _, oldValue) =>
      Outcome(SetRaw(attrs, key, oldValue), m, None)
  }

  /** The foreach of CharacterEditResult.apply: the mods in list order,
      stopping at the first that throws and leaving the rest as they were. */
  function AppliedMods(attrs: map<string, Attribute>, mods: seq<AttributeMod>): (r: Outcome<map<string, Attribute>, seq<AttributeMod>>)
    ensures |r.item| == |mods| && forall i :: 0 <= i < |mods| ==> SameMod(r.item[i], mods[i])
    ensures forall k :: k !in KeysOf(mods) ==> Lookup(r.state, k) == Lookup(attrs, k)
    decreases |mods|
  {
    if mods == [] then Outcome(attrs, [], None)
    else
      var o := AppliedMod(attrs, mods[0]);
      if o.failure.Some? then Outcome(o.state, [o.item] + mods[1..], o.failure)
      else
        var rest := AppliedMods(o.state, mods[1..]);
        assert forall k :: k !in KeysOf(mods) ==> k !in KeysOf(mods[1..]) && k != mods[0].key by {
          forall k | k !in KeysOf(mods) ensures k !in KeysOf(mods[1..]) && k != mods[0].key {
            assert mods[0] in mods;
            forall m | m in mods[1..] ensures m.key != k { assert m in mods; }
          }
        }
        Outcome(rest.state, [o.item] + rest.item, rest.failure)
  }

  /** The foreach of CharacterEditResult.revert: the same forward order. */
  function RevertedMods(attrs: map<string, Attribute>, mods: seq<AttributeMod>): (r: Outcome<map<string, Attribute>, seq<AttributeMod>>)
    ensures r.item == mods
    ensures forall k :: k !in KeysOf(mods) ==> Lookup(r.state, k) == Lookup(attrs, k)
    decreases |mods|
  {
    if mods == [] then Outcome(attrs, [], None)
    else
      var o := RevertedMod(attrs, mods[0]);
      if o.failure.Some? then Outcome(o.state, mods, o.failure)
      else
        var rest := RevertedMods(o.state, mods[1..]);
        assert forall k :: k !in KeysOf(mods) ==> k !in KeysOf(mods[1..]) && k != mods[0].key by {
          forall k | k !in KeysOf(mods) ensures k !in KeysOf(mods[1..]) && k != mods[0].key {
            assert mods[0] in mods;
            forall m | m in mods[1..] ensures m.key != k { assert m in mods; }
          }
        }
        Outcome(rest.state, mods, rest.failure)
  }

  /** A replacement is undone by its revert, whether the set succeeded or
      threw: the dictionary is back as it was, including an absent key. */
  lemma ReplacementRoundTrip(attrs: map<string, Attribute>, key: string, value: Value, kind: AttrType, snapshot: Option<Attribute>)
    ensures var a := AppliedMod(attrs, Replacement(key, value, kind, snapshot));
      RevertedMod(a.state, a.item) == Outcome(attrs, a.item, None)
  {
    var a := AppliedMod(attrs, Replacement(key, value, kind, snapshot));
    if a.failure.None? {
      SetRawRestores(attrs, key, if kind == Bool && value == BoolValue(false) then None else Some(Attribute(kind, value)));
    } else {
      SetRawRestores(attrs, key, Lookup(attrs, key));
      assert SetRaw(attrs, key, Lookup(attrs, key)) == attrs;
    }
  }

  /** An adjustment that succeeds is undone by its revert. */
  lemma AdjustmentRoundTrip(attrs: map<string, Attribute>, key: string, offset: Value)
    requires AppliedMod(attrs, Adjustment(key, offset)).failure.None?
    ensures var a := AppliedMod(attrs, Adjustment(key, offset));
      RevertedMod(a.state, a.item) == Outcome(attrs, a.item, None)
  {
    AdjustEntryRoundTrip(attrs, key, offset);
  }

  /** Reverting the mods in forward order does not undo two appends to the
      same STRING attribute: after "x" + "a" + "b", the first inverse step
      looks for the suffix "a" in "xab" and throws, leaving "xab". */
  lemma ForwardRevertOfAppends()
    ensures var attrs := map["note" := Attribute(Str, StrValue("x"))];
      var mods := [Adjustment("note", StrValue("a")), Adjustment("note", StrValue("b"))];
      var a := AppliedMods(attrs, mods);
      && a == Outcome(map["note" := Attribute(Str, StrValue("xab"))], mods, None)
      && RevertedMods(a.state, a.item) == Outcome(a.state, mods, Some(BadArgument))
  {
    var attrs := map["note" := Attribute(Str, StrValue("x"))];
    var xa := map["note" := Attribute(Str, StrValue("xa"))];
    var xab := map["note" := Attribute(Str, StrValue("xab"))];
    var mods := [Adjustment("note", StrValue("a")), Adjustment("note", StrValue("b"))];
    // The string, map and sequence equalities the unfolding needs.
    assert "x" + "a" == "xa" && "xa" + "b" == "xab";
    assert attrs["note" := Attribute(Str, StrValue("xa"))] == xa;
    assert xa["note" := Attribute(Str, StrValue("xab"))] == xab;
    assert [mods[1]] + [] == [mods[1]];
    assert [mods[0]] + [mods[1]] == mods;
  }

  // ---------------------------------------------------------------------
  // Actions on the world.
  // ---------------------------------------------------------------------

  /** EventResult.apply of the three result classes. */
  function AppliedAction(w: World, a: Action): (r: Outcome<World, Action>)
    ensures a.CharacterAdd? ==>
      && r.failure.None? && r.state.sheets == w.sheets
      && r.item.CharacterAdd? && r.item.character == a.character && r.item.addedKey.Some?
      && r.item.addedKey.value !in w.party && r.state.party == w.party[r.item.addedKey.value := a.character]
    ensures a.CharacterRemove? ==>
      && r.failure.None? && r.state == w.(party := w.party - {a.charId})
      && r.item == a.(removed := if a.charId in w.party then Some(w.party[a.charId]) else None)
    ensures a.CharacterEdit? ==>
      && r.state.party == w.party && r.item.CharacterEdit? && r.item.charId == a.charId
      && (r.failure == Some(NullReference) <==> a.mods != [] && a.charId !in w.party)
      && (a.charId !in w.party ==> r.state == w)
  {
    match a
    case CharacterAdd(c, _) =>
      var key := FreshKey(w.party.Keys, SheetOf(w, c).name);
      Outcome(w.(party := w.party[key := c]), CharacterAdd(c, Some(key)), None)
    case CharacterRemove(id, _) =>
      var removed := if id in w.party then Some(w.party[id]) else None;
      Outcome(w.(party := w.party - {id}), CharacterRemove(id, removed), None)
    case CharacterEdit(id, mods) =>
      if mods == [] then Outcome(w, a, None)
      else if id !in w.party then Outcome(w, a, Some(NullReference))
      else
        var c := w.party[id];
        var o := AppliedMods(SheetOf(w, c).attributes, mods);
        assert o.failure != Some(NullReference) by { AppliedModsErrors(SheetOf(w, c).attributes, mods); }
        Outcome(w.(sheets := w.sheets[c := SheetOf(w, c).(attributes := o.state)]), CharacterEdit(id, o.item), o.failure)
  }

  /** Attribute mods never dereference null. */
  lemma {:induction false} AppliedModsErrors(attrs: map<string, Attribute>, mods: seq<AttributeMod>)
    ensures AppliedMods(attrs, mods).failure != Some(NullReference)
    decreases |mods|
  {
    if mods != [] {
      var o := AppliedMod(attrs, mods[0]);
      if o.failure.None? {
        AppliedModsErrors(o.state, mods[1..]);
      }
    }
  }

  lemma {:induction false} RevertedModsErrors(attrs: map<string, Attribute>, mods: seq<AttributeMod>)
    ensures RevertedMods(attrs, mods).failure != Some(NullReference)
    decreases |mods|
  {
    if mods != [] {
      var o := RevertedMod(attrs, mods[0]);
      if o.failure.None? {
        RevertedModsErrors(o.state, mods[1..]);
      }
    }
  }

  /** EventResult.revert of the three result classes.  Reverting an add
      removes the key the add stored; reverting a removal adds the captured
      character again and records its new key.  A revert with nothing
      cached (an add never applied, a removal that found no character)
      changes nothing. */
  function RevertedAction(w: World, a: Action): (r: Outcome<World, Action>)
    ensures a.CharacterAdd? ==>
      && r.failure.None? && r.item == a
      && r.state == w.(party := if a.addedKey.Some? then w.party - {a.addedKey.value} else w.party)
    ensures a.CharacterRemove? ==>
      && r.failure.None? && r.state.sheets == w.sheets
      && r.item.CharacterRemove? && r.item.removed == a.removed
      && (a.removed.None? ==> r.state == w && r.item == a)
      && (a.removed.Some? ==> r.item.charId !in w.party && r.state.party == w.party[r.item.charId := a.removed.value])
    ensures a.CharacterEdit? ==>
      && r.state.party == w.party && r.item == a
      && (r.failure == Some(NullReference) <==> a.mods != [] && a.charId !in w.party)
      && (a.charId !in w.party ==> r.state == w)
  {
    match a
    case CharacterAdd(_, id) =>
      Outcome(w.(party := if id.Some? then w.party - {id.value} else w.party), a, None)
    case CharacterRemove(_, removed) =>
      if removed.None? then Outcome(w, a, None)
      else
        var key := FreshKey(w.party.Keys, SheetOf(w, removed.value).name);
        Outcome(w.(party := w.party[key := removed.value]), CharacterRemove(key, removed), None)
    case CharacterEdit(id, mods) =>
      if mods == [] then Outcome(w, a, None)
      else if id !in w.party then Outcome(w, a, Some(NullReference))
      else
        var c := w.party[id];
        var o := RevertedMods(SheetOf(w, c).attributes, mods);
        assert o.failure != Some(NullReference) by { RevertedModsErrors(SheetOf(w, c).attributes, mods); }
        Outcome(w.(sheets := w.sheets[c := SheetOf(w, c).(attributes := o.state)]), a, o.failure)
  }

  /** Reverting an applied add removes exactly the key it was stored under,
      and the world is as before. */
  lemma AddRoundTrip(w: World, c: Character, cached: Option<string>)
    ensures var a := AppliedAction(w, CharacterAdd(c, cached));
      RevertedAction(a.state, a.item) == Outcome(w, a.item, None)
  {
    var a := AppliedAction(w, CharacterAdd(c, cached));
    assert a.state.party - {a.item.addedKey.value} == w.party;
  }

  /** Reverting an applied removal puts the removed character back, under
      the key addCharacter now gives it, which the result records; a
      removal of an absent key is undone by doing nothing. */
  lemma RemoveRoundTrip(w: World, id: string, cached: Option<Character>)
    ensures var a := AppliedAction(w, CharacterRemove(id, cached));
      var b := RevertedAction(a.state, a.item);
      && b.failure.None? && b.state.sheets == w.sheets
      && (id !in w.party ==> b.state == w)
      && (id in w.party ==>
           var key := FreshKey((w.party - {id}).Keys, SheetOf(w, w.party[id]).name);
           b.item == CharacterRemove(key, Some(w.party[id])) && b.state.party == (w.party - {id})[key := w.party[id]])
  {
  }

  // ---------------------------------------------------------------------
  // Events on the world.
  // ---------------------------------------------------------------------

  /** The characters an action holds: the one it adds, the one a removal
      captured. */
  function ActionChars(a: Action): set<Character>
  {
    match a
    case CharacterAdd(c, _) => {c}
    case CharacterRemove(_, removed) => if removed.Some? then {removed.value} else {}
    case CharacterEdit(_, _) => {}
  }

  /** The characters held by an event's results from index `i` on, and by
      their sub-events. */
  function CharsFrom(e: Event, i: nat): set<Character>
    requires i <= |Results(e)|
    decreases e, |Results(e)| - i
  {
    if i == |Results(e)| then {} else ResultChars(Results(e)[i]) + CharsFrom(e, i + 1)
  }

  function ResultChars(r: EventResult): set<Character>
    decreases r
  {
    ActionChars(r.action) + if r.subEvent.Some? then EventChars(r.subEvent.value) else {}
  }

  /** The characters an event holds anywhere inside it. */
  function EventChars(e: Event): set<Character>
    decreases e
  {
    CharsFrom(e, 0)
  }

  lemma {:induction false} CharsFromHolds(e: Event, i: nat, j: nat)
    requires i <= j < |Results(e)|
    ensures ResultChars(Results(e)[j]) <= CharsFrom(e, i)
    decreases j - i
  {
    if i < j {
      CharsFromHolds(e, i + 1, j);
    }
  }

  /** EventResult.apply followed, when the result has one, by the apply of
      its sub-event with the same doVirtual. */
  function AppliedResult(w: World, res: EventResult, doVirtual: bool): (r: Outcome<World, EventResult>)
    ensures r.item.kind == res.kind && r.item.creator == res.creator && r.item.summary == res.summary
    ensures r.item.subEvent.Some? == res.subEvent.Some?
    decreases res
  {
    var a := AppliedAction(w, res.action);
    if a.failure.Some? || res.subEvent.None? then Outcome(a.state, res.(action := a.item), a.failure)
    else
      var sub := AppliedEvent(a.state, res.subEvent.value, doVirtual);
      Outcome(sub.state, res.(action := a.item, subEvent := Some(sub.item)), sub.failure)
  }

  /** The foreach of Event.apply from index `i` on: results in list order,
      stopping at the first exception, with the results not reached left
      as they were. */
  function AppliedFrom(w: World, e: Event, i: nat, doVirtual: bool): (r: Outcome<World, seq<EventResult>>)
    requires i <= |Results(e)|
    ensures |r.item| == |Results(e)| - i
    decreases e, |Results(e)| - i
  {
    if i == |Results(e)| then Outcome(w, [], None)
    else
      var o := AppliedResult(w, Results(e)[i], doVirtual);
      if o.failure.Some? then Outcome(o.state, [o.item] + Results(e)[i + 1..], o.failure)
      else
        var rest := AppliedFrom(o.state, e, i + 1, doVirtual);
        Outcome(rest.state, [o.item] + rest.item, rest.failure)
  }

  /** Event.apply: nothing for a virtual event unless doVirtual is set, or
      for a null results list; otherwise the results in list order. */
  function AppliedEvent(w: World, e: Event, doVirtual: bool): (r: Outcome<World, Event>)
    ensures (e.isVirtual && !doVirtual) || e.results.Null? ==> r == Outcome(w, e, None)
    ensures r.item == e.(results := r.item.results) && r.item.results.Null? == e.results.Null?
    ensures |Results(r.item)| == |Results(e)|
    decreases e
  {
    if (e.isVirtual && !doVirtual) || e.results.Null? then Outcome(w, e, None)
    else
      var p := AppliedFrom(w, e, 0, doVirtual);
      Outcome(p.state, e.(results := List(p.item)), p.failure)
  }

  /** EventResult.revert preceded, when the result has one, by the revert
      of its sub-event with the same doVirtual. */
  function RevertedResult(w: World, res: EventResult, doVirtual: bool): (r: Outcome<World, EventResult>)
    ensures r.item.kind == res.kind && r.item.creator == res.creator && r.item.summary == res.summary
    ensures r.item.subEvent.Some? == res.subEvent.Some?
    decreases res
  {
    if res.subEvent.None? then
      var a := RevertedAction(w, res.action);
      Outcome(a.state, res.(action := a.item), a.failure)
    else
      var sub := RevertedEvent(w, res.subEvent.value, doVirtual);
      if sub.failure.Some? then Outcome(sub.state, res.(subEvent := Some(sub.item)), sub.failure)
      else
        var a := RevertedAction(sub.state, res.action);
        Outcome(a.state, res.(action := a.item, subEvent := Some(sub.item)), a.failure)
  }

  /** The foreach of Event.revert from index `i` on: the same forward
      order as apply. */
  function RevertedFrom(w: World, e: Event, i: nat, doVirtual: bool): (r: Outcome<World, seq<EventResult>>)
    requires i <= |Results(e)|
    ensures |r.item| == |Results(e)| - i
    decreases e, |Results(e)| - i
  {
    if i == |Results(e)| then Outcome(w, [], None)
    else
      var o := RevertedResult(w, Results(e)[i], doVirtual);
      if o.failure.Some? then Outcome(o.state, [o.item] + Results(e)[i + 1..], o.failure)
      else
        var rest := RevertedFrom(o.state, e, i + 1, doVirtual);
        Outcome(rest.state, [o.item] + rest.item, rest.failure)
  }

  /** Event.revert, with the same guards as apply. */
  function RevertedEvent(w: World, e: Event, doVirtual: bool): (r: Outcome<World, Event>)
    ensures (e.isVirtual && !doVirtual) || e.results.Null? ==> r == Outcome(w, e, None)
    ensures r.item == e.(results := r.item.results) && r.item.results.Null? == e.results.Null?
    ensures |Results(r.item)| == |Results(e)|
    decreases e
  {
    if (e.isVirtual && !doVirtual) || e.results.Null? then Outcome(w, e, None)
    else
      var p := RevertedFrom(w, e, 0, doVirtual);
      Outcome(p.state, e.(results := List(p.item)), p.failure)
  }

  lemma AppendAssoc<T>(a: seq<T>, b: seq<T>, c: seq<T>)
    ensures a + (b + c) == a + b + c
  {
  }

  /** A result added later runs after every result the event had: the
      walk over the longer list is the walk over the old one followed by
      the new result (unless the old ones already threw). */
  lemma {:induction false} AddedResultRunsLast(w: World, e: Event, r: EventResult, doVirtual: bool, i: nat)
    requires i <= |Results(e)|
    ensures var p := AppliedFrom(w, e, i, doVirtual);
      var q := AppliedFrom(w, AddResult(e, r), i, doVirtual);
      if p.failure.Some? then q == Outcome(p.state, p.item + [r], p.failure)
      else var o := AppliedResult(p.state, r, doVirtual); q == Outcome(o.state, p.item + [o.item], o.failure)
    decreases |Results(e)| - i
  {
    var e2 := AddResult(e, r);
    if i == |Results(e)| {
      var o := AppliedResult(w, r, doVirtual);
      assert Results(e2)[i] == r && Results(e2)[i + 1..] == [];
      assert [o.item] + [] == [] + [o.item];
      if o.failure.None? {
        assert AppliedFrom(o.state, e2, i + 1, doVirtual) == Outcome(o.state, [], None);
      }
    } else {
      var o := AppliedResult(w, Results(e)[i], doVirtual);
      assert Results(e2)[i] == Results(e)[i];
      if o.failure.Some? {
        assert Results(e2)[i + 1..] == Results(e)[i + 1..] + [r];
        AppendAssoc([o.item], Results(e)[i + 1..], [r]);
      } else {
        AddedResultRunsLast(o.state, e, r, doVirtual, i + 1);
        var rest := AppliedFrom(o.state, e, i + 1, doVirtual);
        AppendAssoc([o.item], rest.item, [r]);
        if rest.failure.None? {
          var o2 := AppliedResult(rest.state, r, doVirtual);
          AppendAssoc([o.item], rest.item, [o2.item]);
        }
      }
    }
  }

  /** Every party member has a sheet in the world. */
  predicate Sheeted(w: World)
  {
    forall k :: k in w.party ==> w.party[k] in w.sheets
  }

  /** An edit made of one mod that applied without an exception is undone
      by the revert of the edit. */
  lemma EditRoundTrip(w: World, id: string, m: AttributeMod)
    requires Sheeted(w)
    requires AppliedAction(w, CharacterEdit(id, [m])).failure.None?
    ensures var a := AppliedAction(w, CharacterEdit(id, [m]));
      RevertedAction(a.state, a.item) == Outcome(w, a.item, None)
  {
    var a := AppliedAction(w, CharacterEdit(id, [m]));
    if id in w.party {
      var c := w.party[id];
      var attrs := SheetOf(w, c).attributes;
      var o := AppliedMod(attrs, m);
      assert [m][0] == m && [m][1..] == [];
      assert AppliedMods(attrs, [m]).failure.None?;
      assert o.failure.None?;
      assert [o.item] + [] == [o.item];
      assert AppliedMods(attrs, [m]) == Outcome(o.state, [o.item], None);
      if m.Adjustment? {
        AdjustmentRoundTrip(attrs, m.key, m.offset);
      } else {
        ReplacementRoundTrip(attrs, m.key, m.value, m.kind, m.oldValue);
      }
      assert [o.item][0] == o.item && [o.item][1..] == [];
      assert RevertedMods(o.state, [o.item]) == Outcome(attrs, [o.item], None);
      assert c in w.sheets && SheetOf(w, c).(attributes := attrs) == w.sheets[c];
      var w1 := w.(sheets := w.sheets[c := SheetOf(w, c).(attributes := o.state)]);
      assert a == Outcome(w1, CharacterEdit(id, [o.item]), None);
      assert SheetOf(w1, c) == SheetOf(w, c).(attributes := o.state);
      assert w1.sheets[c := SheetOf(w1, c).(attributes := attrs)] == w.sheets;
    }
  }

  // ---------------------------------------------------------------------
  // The methods, which update the characters and the campaign state in
  // place.
  // ---------------------------------------------------------------------

  /** AttributeMod.apply on a character. */
  method ApplyMod(c: Character, m: AttributeMod) returns (m': AttributeMod, failure: Option<Error>)
    modifies c`attributes
    ensures Outcome(c.attributes, m', failure) == AppliedMod(old(c.attributes), m)
  {
    match m
    case Adjustment(key, offset) =>
      failure := c.AdjustAttribute(key, offset, false);
      m' := m;
    case Replacement(key, value, kind, _) =>
      m' := m.(oldValue := c.GetRawAttribute(key));
      failure := c.SetAttribute(key, value, kind);
  }

  /** AttributeMod.revert on a character. */
  method RevertMod(c: Character, m: AttributeMod) returns (failure: Option<Error>)
    modifies c`attributes
    ensures Outcome(c.attributes, m, failure) == RevertedMod(old(c.attributes), m)
  {
    match m
    case Adjustment(key, offset) =>
      failure := c.AdjustAttribute(key, offset, true);
    case Replacement(key, _, _, oldValue) =>
      c.SetRawAttribute(key, oldValue);
      failure := None;
  }

  /** The result of the mods loop, `done` followed by what the rest does. */
  function ModsLoop(attrs: map<string, Attribute>, done: seq<AttributeMod>, rest: seq<AttributeMod>): Outcome<map<string, Attribute>, seq<AttributeMod>>
  {
    var r := AppliedMods(attrs, rest);
    Outcome(r.state, done + r.item, r.failure)
  }

  /** One turn of the mods loop. */
  lemma ModsLoopStep(attrs: map<string, Attribute>, done: seq<AttributeMod>, rest: seq<AttributeMod>)
    requires rest != []
    ensures var o := AppliedMod(attrs, rest[0]);
      && (o.failure.Some? ==> ModsLoop(attrs, done, rest) == Outcome(o.state, done + [o.item] + rest[1..], o.failure))
      && (o.failure.None? ==> ModsLoop(attrs, done, rest) == ModsLoop(o.state, done + [o.item], rest[1..]))
  {
    var o := AppliedMod(attrs, rest[0]);
    if o.failure.Some? {
      assert done + ([o.item] + rest[1..]) == done + [o.item] + rest[1..];
    } else {
      var r := AppliedMods(o.state, rest[1..]);
      assert done + ([o.item] + r.item) == done + [o.item] + r.item;
    }
  }

  /** The mods loop of CharacterEditResult.apply. */
  method ApplyMods(c: Character, mods: seq<AttributeMod>) returns (mods': seq<AttributeMod>, failure: Option<Error>)
    modifies c`attributes
    ensures Outcome(c.attributes, mods', failure) == AppliedMods(old(c.attributes), mods)
  {
    ghost var final := AppliedMods(c.attributes, mods);
    mods' := [];
    var rest := mods;
    assert final == ModsLoop(c.attributes, mods', rest) by {
      assert mods' + final.item == final.item;
    }
    while rest != []
      invariant final == ModsLoop(c.attributes, mods', rest)
    {
      ModsLoopStep(c.attributes, mods', rest);
      var m, f := ApplyMod(c, rest[0]);
      if f.Some? {
        return mods' + [m] + rest[1..], f;
      }
      mods' := mods' + [m];
      rest := rest[1..];
    }
    assert mods' + [] == mods';
    failure := None;
  }

  /** The mods loop of CharacterEditResult.revert, in forward order. */
  method RevertMods(c: Character, mods: seq<AttributeMod>) returns (failure: Option<Error>)
    modifies c`attributes
    ensures Outcome(c.attributes, mods, failure) == RevertedMods(old(c.attributes), mods)
  {
    ghost var final := RevertedMods(c.attributes, mods);
    var rest := mods;
    while rest != []
      invariant final == Outcome(RevertedMods(c.attributes, rest).state, mods, RevertedMods(c.attributes, rest).failure)
    {
      failure := RevertMod(c, rest[0]);
      if failure.Some? {
        return;
      }
      rest := rest[1..];
    }
    failure := None;
  }

  /** CharacterEditResult's world after the sheet of `c` got new attributes. */
  lemma EditedWorld(w0: World, w1: World, u: set<Character>, c: Character, attrs: map<string, Attribute>)
    requires c in u && w0.sheets.Keys == u && w1.sheets.Keys == u && w1.party == w0.party
    requires forall x :: x in u && x != c ==> w1.sheets[x] == w0.sheets[x]
    requires w1.sheets[c] == w0.sheets[c].(attributes := attrs)
    ensures w1 == w0.(sheets := w0.sheets[c := SheetOf(w0, c).(attributes := attrs)])
  {
  }

  /** EventResult.apply of the three result classes on the campaign state. */
  method ApplyAction(a: Action, s: CampaignState, ghost u: set<Character>) returns (a': Action, failure: Option<Error>)
    requires s.party.Values <= u && ActionChars(a) <= u
    modifies s`party, u`attributes
    ensures s.party.Values <= u
    ensures Outcome(WorldOf(s, u), a', failure) == AppliedAction(old(WorldOf(s, u)), a)
  {
    ghost var w0 := WorldOf(s, u);
    match a
    case CharacterAdd(c, _) =>
      var key := s.AddCharacter(c);
      assert WorldOf(s, u).sheets == w0.sheets;
      a', failure := CharacterAdd(c, Some(key)), None;
    case CharacterRemove(id, _) =>
      var removed := s.GetCharacter(id);
      s.RemoveCharacter(id);
      assert WorldOf(s, u).sheets == w0.sheets;
      a', failure := CharacterRemove(id, removed), None;
    case CharacterEdit(id, mods) =>
      var c := s.GetCharacter(id);
      if mods == [] {
        return a, None;
      }
      if c.None? {
        // the first m.apply(c) dereferences null
        return a, Some(NullReference);
      }
      var mods', f := ApplyMods(c.value, mods);
      EditedWorld(w0, WorldOf(s, u), u, c.value, c.value.attributes);
      a', failure := CharacterEdit(id, mods'), f;
  }

  /** EventResult.revert of the three result classes on the campaign state. */
  method RevertAction(a: Action, s: CampaignState, ghost u: set<Character>) returns (a': Action, failure: Option<Error>)
    requires s.party.Values <= u && ActionChars(a) <= u
    modifies s`party, u`attributes
    ensures s.party.Values <= u
    ensures Outcome(WorldOf(s, u), a', failure) == RevertedAction(old(WorldOf(s, u)), a)
  {
    ghost var w0 := WorldOf(s, u);
    match a
    case CharacterAdd(_, id) =>
      if id.Some? {
        s.RemoveCharacter(id.value);
      }
      assert WorldOf(s, u).sheets == w0.sheets;
      a', failure := a, None;
    case CharacterRemove(_, removed) =>
      if removed.None? {
        return a, None;
      }
      var key := s.AddCharacter(removed.value);
      assert WorldOf(s, u).sheets == w0.sheets;
      a', failure := CharacterRemove(key, removed), None;
    case CharacterEdit(id, mods) =>
      var c := s.GetCharacter(id);
      if mods == [] {
        return a, None;
      }
      if c.None? {
        return a, Some(NullReference);
      }
      failure := RevertMods(c.value, mods);
      EditedWorld(w0, WorldOf(s, u), u, c.value, c.value.attributes);
      a' := a;
  }

  /** The result of the results loop of Event.apply: `done` followed by
      what the results from index `i` on do. */
  function ApplyLoop(w: World, e: Event, done: seq<EventResult>, i: nat, doVirtual: bool): Outcome<World, seq<EventResult>>
    requires i <= |Results(e)|
  {
    var r := AppliedFrom(w, e, i, doVirtual);
    Outcome(r.state, done + r.item, r.failure)
  }

  /** One turn of the results loop of Event.apply. */
  lemma ApplyLoopStep(w: World, e: Event, done: seq<EventResult>, i: nat, doVirtual: bool)
    requires i < |Results(e)|
    ensures var o := AppliedResult(w, Results(e)[i], doVirtual);
      && (o.failure.Some? ==> ApplyLoop(w, e, done, i, doVirtual) == Outcome(o.state, done + [o.item] + Results(e)[i + 1..], o.failure))
      && (o.failure.None? ==> ApplyLoop(w, e, done, i, doVirtual) == ApplyLoop(o.state, e, done + [o.item], i + 1, doVirtual))
  {
    var o := AppliedResult(w, Results(e)[i], doVirtual);
    if o.failure.Some? {
      assert done + ([o.item] + Results(e)[i + 1..]) == done + [o.item] + Results(e)[i + 1..];
    } else {
      var r := AppliedFrom(o.state, e, i + 1, doVirtual);
      assert done + ([o.item] + r.item) == done + [o.item] + r.item;
    }
  }

  /** The results loop of Event.revert, as ApplyLoop. */
  function RevertLoop(w: World, e: Event, done: seq<EventResult>, i: nat, doVirtual: bool): Outcome<World, seq<EventResult>>
    requires i <= |Results(e)|
  {
    var r := RevertedFrom(w, e, i, doVirtual);
    Outcome(r.state, done + r.item, r.failure)
  }

  lemma RevertLoopStep(w: World, e: Event, done: seq<EventResult>, i: nat, doVirtual: bool)
    requires i < |Results(e)|
    ensures var o := RevertedResult(w, Results(e)[i], doVirtual);
      && (o.failure.Some? ==> RevertLoop(w, e, done, i, doVirtual) == Outcome(o.state, done + [o.item] + Results(e)[i + 1..], o.failure))
      && (o.failure.None? ==> RevertLoop(w, e, done, i, doVirtual) == RevertLoop(o.state, e, done + [o.item], i + 1, doVirtual))
  {
    var o := RevertedResult(w, Results(e)[i], doVirtual);
    if o.failure.Some? {
      assert done + ([o.item] + Results(e)[i + 1..]) == done + [o.item] + Results(e)[i + 1..];
    } else {
      var r := RevertedFrom(o.state, e, i + 1, doVirtual);
      assert done + ([o.item] + r.item) == done + [o.item] + r.item;
    }
  }

  /** One result of Event.apply: the result, then its sub-event. */
  method ApplyResult(res: EventResult, s: CampaignState, doVirtual: bool, ghost u: set<Character>) returns (res': EventResult, failure: Option<Error>)
    requires s.party.Values <= u && ResultChars(res) <= u
    modifies s`party, u`attributes
    ensures s.party.Values <= u
    ensures Outcome(WorldOf(s, u), res', failure) == AppliedResult(old(WorldOf(s, u)), res, doVirtual)
    decreases res
  {
    var a, f := ApplyAction(res.action, s, u);
    res' := res.(action := a);
    if f.Some? || res.subEvent.None? {
      return res', f;
    }
    var sub, g := Apply(res.subEvent.value, s, doVirtual, u);
    res', failure := res'.(subEvent := Some(sub)), g;
  }

  /** Event.apply on the campaign state. */
  method Apply(e: Event, s: CampaignState, doVirtual: bool, ghost u: set<Character>) returns (e': Event, failure: Option<Error>)
    requires s.party.Values <= u && EventChars(e) <= u
    modifies s`party, u`attributes
    ensures s.party.Values <= u
    ensures Outcome(WorldOf(s, u), e', failure) == AppliedEvent(old(WorldOf(s, u)), e, doVirtual)
    decreases e
  {
    if (e.isVirtual && !doVirtual) || e.results.Null? {
      return e, None;
    }
    var results := e.results.items;
    ghost var final := AppliedFrom(WorldOf(s, u), e, 0, doVirtual);
    var done: seq<EventResult> := [];
    var i := 0;
    assert final == ApplyLoop(WorldOf(s, u), e, done, i, doVirtual) by {
      assert done + final.item == final.item;
    }
    while i < |results|
      invariant 0 <= i <= |results| && s.party.Values <= u
      invariant final == ApplyLoop(WorldOf(s, u), e, done, i, doVirtual)
    {
      ApplyLoopStep(WorldOf(s, u), e, done, i, doVirtual);
      CharsFromHolds(e, 0, i);
      var r, f := ApplyResult(results[i], s, doVirtual, u);
      if f.Some? {
        return e.(results := List(done + [r] + results[i + 1..])), f;
      }
      done := done + [r];
      i := i + 1;
    }
    assert done + [] == done;
    e', failure := e.(results := List(done)), None;
  }

  /** One result of Event.revert: the sub-event first, then the result. */
  method RevertResult(res: EventResult, s: CampaignState, doVirtual: bool, ghost u: set<Character>) returns (res': EventResult, failure: Option<Error>)
    requires s.party.Values <= u && ResultChars(res) <= u
    modifies s`party, u`attributes
    ensures s.party.Values <= u
    ensures Outcome(WorldOf(s, u), res', failure) == RevertedResult(old(WorldOf(s, u)), res, doVirtual)
    decreases res
  {
    res' := res;
    if res.subEvent.Some? {
      var sub, g := Revert(res.subEvent.value, s, doVirtual, u);
      res' := res.(subEvent := Some(sub));
      if g.Some? {
        return res', g;
      }
    }
    var a, f := RevertAction(res.action, s, u);
    res', failure := res'.(action := a), f;
  }

  /** Event.revert on the campaign state. */
  method Revert(e: Event, s: CampaignState, doVirtual: bool, ghost u: set<Character>) returns (e': Event, failure: Option<Error>)
    requires s.party.Values <= u && EventChars(e) <= u
    modifies s`party, u`attributes
    ensures s.party.Values <= u
    ensures Outcome(WorldOf(s, u), e', failure) == RevertedEvent(old(WorldOf(s, u)), e, doVirtual)
    decreases e
  {
    if (e.isVirtual && !doVirtual) || e.results.Null? {
      return e, None;
    }
    var results := e.results.items;
    ghost var final := RevertedFrom(WorldOf(s, u), e, 0, doVirtual);
    var done: seq<EventResult> := [];
    var i := 0;
    assert final == RevertLoop(WorldOf(s, u), e, done, i, doVirtual) by {
      assert done + final.item == final.item;
    }
    while i < |results|
      invariant 0 <= i <= |results| && s.party.Values <= u
      invariant final == RevertLoop(WorldOf(s, u), e, done, i, doVirtual)
    {
      RevertLoopStep(WorldOf(s, u), e, done, i, doVirtual);
      CharsFromHolds(e, 0, i);
      var r, f := RevertResult(results[i], s, doVirtual, u);
      if f.Some? {
        return e.(results := List(done + [r] + results[i + 1..])), f;
      }
      done := done + [r];
      i := i + 1;
    }
    assert done + [] == done;
    e', failure := e.(results := List(done)), None;
  }
}
