/**
 The capped global interner: a table of strings that only grows, up to its cap, and counts the
 strings it turns away. `Table` is the value the class refines.
 */
module Interners {
  import opened Types

  datatype Table = Table(strings: seq<string>, cap: nat, refusals: nat)

  ghost predicate NoRepeats<T>(xs: seq<T>) {
    forall i, j | 0 <= i < j < |xs| :: xs[i] != xs[j]
  }

  ghost predicate Sound(t: Table) {
    |t.strings| <= t.cap && NoRepeats(t.strings)
  }

  // `later` can be reached from `earlier` by interning more strings.
  ghost predicate Grows(earlier: Table, later: Table) {
    && earlier.cap == later.cap
    && earlier.strings <= later.strings
    && earlier.refusals <= later.refusals
    && Sound(earlier)
    && Sound(later)
  }

  ghost function IdOf(t: Table, s: string): (id: Option<nat>)
    ensures id.Some? <==> s in t.strings
    ensures id.Some? ==> id.value < |t.strings| && t.strings[id.value] == s
  {
    if s in t.strings then
      var i :| 0 <= i < |t.strings| && t.strings[i] == s;
      Some(i)
    else
      None
  }

  // The table after one request to intern `s`; the answer to the request is `IdOf` in that table.
  ghost function Admit(t: Table, s: string): (t': Table)
    ensures Sound(t) ==> Grows(t, t')
  {
    if s in t.strings then t
    else if |t.strings| >= t.cap then t.(refusals := t.refusals + 1)
    else t.(strings := t.strings + [s])
  }

  ghost function AdmitKeys(t: Table, attrs: seq<Attribute>): (t': Table)
    ensures Sound(t) ==> Grows(t, t')
  {
    if attrs == [] then t else
      Admit(AdmitKeys(t, attrs[..|attrs| - 1]), attrs[|attrs| - 1].0)
  }

  ghost function AdmitService(t: Table, name: Option<string>): (t': Table)
    ensures Sound(t) ==> Grows(t, t')
  {
    if name.Some? then Admit(t, name.value) else t
  }

  // The attributes whose keys the table holds, keys replaced by their ids; the others are dropped.
  ghost function Encode(t: Table, attrs: seq<Attribute>): seq<(nat, AttrValue)> {
    if attrs == [] then [] else
      var (key, value) := attrs[|attrs| - 1];
      Encode(t, attrs[..|attrs| - 1]) + if key in t.strings then [(IdOf(t, key).value, value)] else []
  }

  ghost function EncodeService(t: Table, name: Option<string>): Option<nat> {
    if name.Some? then IdOf(t, name.value) else None
  }

  // The way back from ids to strings.
  function Decode(t: Table, attrs: seq<(nat, AttrValue)>): seq<Attribute>
    requires forall k | 0 <= k < |attrs| :: attrs[k].0 < |t.strings|
  {
    seq(|attrs|, k requires 0 <= k < |attrs| => (t.strings[attrs[k].0], attrs[k].1))
  }

  function DecodeService(t: Table, id: Option<nat>): Option<string>
    requires id.Some? ==> id.value < |t.strings|
  {
    if id.Some? then Some(t.strings[id.value]) else None
  }

  // The table will never change its mind about `s`: it holds it, or it is full.
  ghost predicate Settled(t: Table, s: string) {
    s in t.strings || |t.strings| >= t.cap
  }

  ghost predicate SettledKeys(t: Table, attrs: seq<Attribute>) {
    forall i | 0 <= i < |attrs| :: Settled(t, attrs[i].0)
  }

  // An id once given keeps its meaning, and a string once refused stays refused.
  lemma IdStable(earlier: Table, later: Table, s: string)
    requires Grows(earlier, later)
    requires Settled(earlier, s)
    ensures IdOf(later, s) == IdOf(earlier, s)
    ensures Settled(later, s)
  {
    if |earlier.strings| >= earlier.cap {
      assert earlier.strings == later.strings;
    }
  }

  lemma AdmitSettles(t: Table, s: string)
    requires Sound(t)
    ensures Settled(Admit(t, s), s)
  {
    if s !in t.strings && |t.strings| < t.cap {
      assert (t.strings + [s])[|t.strings|] == s;
    }
  }

  lemma {:induction false} AdmitKeysSettles(t: Table, attrs: seq<Attribute>)
    requires Sound(t)
    ensures SettledKeys(AdmitKeys(t, attrs), attrs)
  {
    if attrs != [] {
      var front, last := attrs[..|attrs| - 1], attrs[|attrs| - 1].0;
      var before := AdmitKeys(t, front);
      AdmitKeysSettles(t, front);
      AdmitSettles(before, last);
      forall i | 0 <= i < |attrs|
        ensures Settled(Admit(before, last), attrs[i].0)
      {
        if i < |front| {
          assert attrs[i] == front[i];
          IdStable(before, Admit(before, last), front[i].0);
        }
      }
    }
  }

  // Re-encoding settled attributes later gives the same result, whatever was interned in between.
  lemma {:induction false} EncodeStable(earlier: Table, later: Table, attrs: seq<Attribute>)
    requires Grows(earlier, later)
    requires SettledKeys(earlier, attrs)
    ensures Encode(later, attrs) == Encode(earlier, attrs)
    ensures SettledKeys(later, attrs)
  {
    if attrs != [] {
      var front := attrs[..|attrs| - 1];
      assert forall i | 0 <= i < |front| :: front[i] == attrs[i];
      EncodeStable(earlier, later, front);
      forall i | 0 <= i < |attrs|
        ensures Settled(later, attrs[i].0) && IdOf(later, attrs[i].0) == IdOf(earlier, attrs[i].0)
      {
        IdStable(earlier, later, attrs[i].0);
      }
    }
  }

  // Every attribute is either kept or counted as a refusal.
  lemma {:induction false} DroppedAreCounted(t: Table, attrs: seq<Attribute>)
    requires Sound(t)
    ensures AdmitKeys(t, attrs).refusals == t.refusals + |attrs| - |Encode(AdmitKeys(t, attrs), attrs)|
  {
    if attrs != [] {
      var front, last := attrs[..|attrs| - 1], attrs[|attrs| - 1].0;
      var before, after := AdmitKeys(t, front), AdmitKeys(t, attrs);
      DroppedAreCounted(t, front);
      AdmitKeysSettles(t, front);
      EncodeStable(before, after, front);
      AdmitSettles(before, last);
    }
  }

  // Interning settled keys again changes nothing but the count of refusals.
  lemma {:induction false} AdmitSettledKeys(t: Table, attrs: seq<Attribute>)
    requires Sound(t)
    requires SettledKeys(t, attrs)
    ensures AdmitKeys(t, attrs).strings == t.strings
  {
    if attrs != [] {
      var front := attrs[..|attrs| - 1];
      assert forall i | 0 <= i < |front| :: front[i] == attrs[i];
      AdmitSettledKeys(t, front);
      assert Settled(t, attrs[|attrs| - 1].0);
    }
  }

  lemma EncodeInRange(t: Table, attrs: seq<Attribute>)
    ensures |Encode(t, attrs)| <= |attrs|
    ensures forall i | 0 <= i < |Encode(t, attrs)| :: Encode(t, attrs)[i].0 < |t.strings|
  {
  }

  class Interner {
    var ids: map<string, nat>
    var values: seq<string>
    const cap: nat
    var capHitCount: nat

    ghost predicate Valid()
      reads this
    {
      && cap <= U32_LIMIT
      && Sound(State())
      && (forall i | 0 <= i < |values| :: values[i] in ids && ids[values[i]] == i)
      && (forall s | s in ids :: ids[s] < |values| && values[ids[s]] == s)
    }

    ghost function State(): Table
      reads this
    {
      Table(values, cap, capHitCount)
    }

    constructor (cap: nat)
      ensures cap <= U32_LIMIT ==> Valid()
      ensures State() == Table([], cap, 0)
    {
      this.cap := cap;
      ids, values, capHitCount := map[], [], 0;
    }

    method Intern(s: string) returns (id: Option<nat>)
      requires Valid()
      modifies this
      ensures Valid()
      ensures State() == Admit(old(State()), s)
      ensures id == IdOf(State(), s)
    {
      if s in ids {
        return Some(ids[s]);
      }
      if |values| >= cap {
        capHitCount := capHitCount + 1;
        return None;
      }
      var next := AsU32(|values|);
      values := values + [s];
      ids := ids[s := next];
      id := Some(next);
      assert values[next] == s;
    }

    function Get(id: nat): (s: string)
      requires id < |values|
      requires Valid()
      reads this
      ensures IdOf(State(), s) == Some(id)
    {
      values[id]
    }

    function Lookup(s: string): (id: Option<nat>)
      requires Valid()
      reads this
      ensures id == IdOf(State(), s)
    {
      if s in ids then Some(ids[s]) else None
    }
  }
}
