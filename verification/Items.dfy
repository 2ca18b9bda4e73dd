/** The generic record every collection and the secret store hold. */
module Items {
  import opened Common

  datatype Item = Item(
    id: u64,
    strs: map<string, string>,
    bools: map<string, bool>,
    u64s: map<string, u64>,
    ids: map<string, u64>,
    strstrs: map<string, map<string, string>>,
    strids: map<string, seq<u64>>)

  /** A record with nothing in it and no id chosen. */
  const BLANK: Item := Item(U64_MAX, map[], map[], map[], map[], map[], map[])

  function SafeStr(it: Item, key: string): string {
    if key in it.strs then it.strs[key] else ""
  }

  function SafeBool(it: Item, key: string): bool {
    key in it.bools && it.bools[key]
  }

  function SafeU64(it: Item, key: string): u64 {
    if key in it.u64s then it.u64s[key] else 0
  }

  /** `base.merge(over)`: the fields of `over` laid over those of `base`; the id stays. */
  function Merge(base: Item, over: Item): Item {
    base.(strs := base.strs + over.strs,
          bools := base.bools + over.bools,
          u64s := base.u64s + over.u64s,
          ids := base.ids + over.ids,
          strstrs := base.strstrs + over.strstrs,
          strids := base.strids + over.strids)
  }

  // ---- what a store keeps of a write ----

  const MARKER := "__security_preserve"

  function Scrubbed(it: Item): Item {
    it.(bools := it.bools - {MARKER})
  }

  /** What a write leaves in the store, given what was there. */
  function Stored(prior: Option<Item>, it: Item, merge: bool): Item {
    if merge && prior.Some? then Merge(prior.value, Scrubbed(it)) else Scrubbed(it)
  }

  /** The keys of both, with the sent value where one was sent. */
  ghost predicate Overlaid<V>(after: map<string, V>, sent: map<string, V>, before: map<string, V>) {
    after.Keys == sent.Keys + before.Keys &&
    forall k | k in after :: after[k] == if k in sent then sent[k] else before[k]
  }

  lemma MergeOverlays(base: Item, over: Item)
    ensures var after := Merge(base, over);
            && after.id == base.id
            && Overlaid(after.strs, over.strs, base.strs) && Overlaid(after.bools, over.bools, base.bools)
            && Overlaid(after.u64s, over.u64s, base.u64s) && Overlaid(after.ids, over.ids, base.ids)
            && Overlaid(after.strstrs, over.strstrs, base.strstrs) && Overlaid(after.strids, over.strids, base.strids)
  {
  }

  /** What is kept of a write: the flags without the marker, and each map as sent or laid over the one there was. */
  lemma StoredIs(prior: Option<Item>, sent: Item, merge: bool)
    ensures var after := Stored(prior, sent, merge);
            if merge && prior.Some?
            then
              && after.id == prior.value.id
              && Overlaid(after.strs, sent.strs, prior.value.strs)
              && Overlaid(after.bools, sent.bools - {"__security_preserve"}, prior.value.bools)
              && Overlaid(after.u64s, sent.u64s, prior.value.u64s) && Overlaid(after.ids, sent.ids, prior.value.ids)
              && Overlaid(after.strstrs, sent.strstrs, prior.value.strstrs)
              && Overlaid(after.strids, sent.strids, prior.value.strids)
            else after == sent.(bools := sent.bools - {"__security_preserve"})
  {
    hide Merge, Overlaid;
    if merge && prior.Some? {
      MergeOverlays(prior.value, Scrubbed(sent));
    }
  }

  // ---- ownership (src/server/owner.rs) ----

  const FIELD_OWNER := "owner"

  function OwnerOf(it: Item): Option<u64> {
    if FIELD_OWNER in it.ids then Some(it.ids[FIELD_OWNER]) else None
  }

  /** The owner put on a record before it is written. */
  function Stamp(it: Item, prior: Option<Item>, caller: u64): Item {
    match prior
    case None => it.(ids := it.ids[FIELD_OWNER := caller])
    case Some(o) =>
      match OwnerOf(o)
      case Some(owner) => it.(ids := it.ids[FIELD_OWNER := owner])
      case None => it.(ids := it.ids - {FIELD_OWNER})
  }

  lemma StampKeepsRest(it: Item, prior: Option<Item>, caller: u64)
    ensures Stamp(it, prior, caller) == it.(ids := Stamp(it, prior, caller).ids)
  {
  }

  predicate MayTouch(it: Item, user: u64, admin: bool) {
    admin || OwnerOf(it) == Some(user)
  }

  /**
   * Whatever owner the request claims, the record that results from merging or replacing with it
   * has the owner it had, and a new record has its creator.
   */
  lemma StampDecidesOwner(sent: Item, prior: Option<Item>, caller: u64, merge: bool)
    ensures var stamped := Stamp(sent, prior, caller);
            var stored := if merge && prior.Some? then Merge(prior.value, stamped) else stamped;
            OwnerOf(stored) == if prior.Some? then OwnerOf(prior.value) else Some(caller)
  {
  }
}
