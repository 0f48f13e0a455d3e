/** Properties and the scope chain (src/props.c). A property table is used here through its finds, adds and
    deletes only, so it is a map; UtHash shows that the real table behaves like one. */
module Props {
  import opened Options

  datatype Flags = Flags(writable: bool, enumerable: bool, configurable: bool)

  const P_DEFAULT := Flags(true, true, true)

  datatype Prop = Prop(ptr: Obj, flags: Flags, circular: bool)

  type Table = map<string, Prop>

  /** The property that a write leaves behind: P_IGNORE (no flags) keeps the old flags, or gives a new
      property the default ones. */
  function Written(before: Option<Prop>, owner: Obj, val: Obj, flags: Option<Flags>): Prop {
    var kept := if before.Some? then before.value.flags else P_DEFAULT;
    Prop(val, if flags.Some? then flags.value else kept, val == owner)
  }

  function At(t: Table, name: string): Option<Prop> {
    if name in t then Some(t[name]) else None
  }

  class Obj {
    var table: Table
    var parent: Obj?

    /** The mark phase skips circular properties, which is right only if they point at their owner. */
    ghost predicate CircularRight()
      reads this`table
    {
      forall name :: name in table ==> (table[name].circular <==> table[name].ptr == this)
    }

    /** fh_get_prop */
    function GetProp(name: string): Option<Prop>
      reads this`table
    {
      At(table, name)
    }

    /** fh_set_prop */
    method SetProp(name: string, val: Obj, flags: Option<Flags>)
      modifies this`table
      ensures table == old(table)[name := Written(old(GetProp(name)), this, val, flags)]
      ensures name in table && table[name].ptr == val && (table[name].circular <==> val == this)
      ensures flags.Some? ==> table[name].flags == flags.value
      ensures flags.None? && name in old(table) ==> table[name].flags == old(table)[name].flags
      ensures flags.None? && name !in old(table) ==> table[name].flags == Flags(true, true, true)
      ensures table - {name} == old(table) - {name}
      ensures old(CircularRight()) ==> CircularRight()
    {
      var prop := GetProp(name);
      var p := if prop.None? then Prop(val, P_DEFAULT, false) else prop.value;
      if flags.Some? {
        p := p.(flags := flags.value);
      }
      p := p.(ptr := val);
      p := p.(circular := p.ptr == this);
      table := table[name := p];
    }

    /** fh_set */
    method Set(name: string, val: Obj)
      modifies this`table
      ensures table == old(table)[name := Written(old(GetProp(name)), this, val, None)]
      ensures name in table && table[name].ptr == val && (table[name].circular <==> val == this)
      ensures table[name].flags == if name in old(table) then old(table)[name].flags else Flags(true, true, true)
      ensures table - {name} == old(table) - {name}
      ensures old(CircularRight()) ==> CircularRight()
    {
      SetProp(name, val, None);
    }

    /** fh_del_prop */
    method DelProp(name: string) returns (found: bool)
      modifies this`table
      ensures found <==> name in old(table)
      ensures table == old(table) - {name}
      ensures old(CircularRight()) ==> CircularRight()
    {
      var deletee := GetProp(name);
      if deletee.None? {
        return false;
      }
      table := table - {name};
      return true;
    }

    /** fh_get_prop_rec */
    function GetPropRec(name: string, ghost chain: seq<Obj>): (r: Option<Prop>)
      requires IsScopeChain(chain) && chain[0] == this
      reads chain
      ensures r == Lookup(Tables(chain), name)
      decreases |chain|
    {
      var prop := GetProp(name);
      assert |chain| > 1 ==> chain[0].parent == chain[1];
      assert Tables(chain)[0] == table && Tables(chain)[1..] == Tables(chain[1..]);
      if prop.None? && parent != null then
        assert chain[1..][0] == parent;
        parent.GetPropRec(name, chain[1..])
      else prop
    }

    /** fh_get_rec: nothing found reads as undefined. */
    function GetRec(name: string, ghost chain: seq<Obj>): (r: Option<Obj>)
      requires IsScopeChain(chain) && chain[0] == this
      reads chain
      ensures r == Value(Lookup(Tables(chain), name))
    {
      var prop := GetPropRec(name, chain);
      if prop.Some? then Some(prop.value.ptr) else None
    }

    /** fh_set_rec */
    method SetRec(name: string, val: Obj, ghost chain: seq<Obj>)
      requires IsScopeChain(chain) && chain[0] == this
      modifies chain`table
      ensures Tables(chain) == Assigned(old(Tables(chain)), chain, name, val)
      ensures forall i :: 0 <= i < |chain| && name in old(chain[i].table) ==>
        name in chain[i].table && chain[i].table[name].flags == old(chain[i].table)[name].flags
      ensures forall i :: 0 <= i < |chain| ==> chain[i].table - {name} == old(chain[i].table) - {name}
      ensures (forall o :: o in chain ==> old(o.CircularRight())) ==> forall o :: o in chain ==> o.CircularRight()
    {
      hide Lookup, Holder;
      AllDistinct(chain);
      ghost var tables := Tables(chain);
      var scopeToSet: Obj := this;
      var obj: Obj := this;
      var up: Obj? := null;
      var prop := GetProp(name);
      ghost var i := 0;
      while prop.None?
        invariant 0 <= i < |chain| && obj == chain[i] && prop == chain[i].GetProp(name)
        invariant if i == 0 then up == null else up == chain[i]
        invariant forall j :: 0 <= j < i ==> name !in tables[j]
        invariant prop.Some? <==> name in tables[i]
        decreases |chain| - i
      {
        assert name !in tables[i];
        assert i < |chain| - 1 ==> chain[i].parent == chain[i + 1];
        if obj.parent == null {
          break;
        }
        up := obj.parent;
        prop := up.GetProp(name);
        obj := up;
        i := i + 1;
      }
      if prop.Some? && up != null {
        scopeToSet := up;
      }
      HolderIs(tables, name, if prop.Some? then i else |tables|);
      scopeToSet.Set(name, val);
    }
  }

  /** The scopes from `chain[0]` up to the global object. */
  ghost predicate IsScopeChain(chain: seq<Obj>)
    reads chain
  {
    && |chain| > 0
    && chain[|chain| - 1].parent == null
    && forall i :: 0 <= i < |chain| - 1 ==> chain[i].parent == chain[i + 1]
  }

  ghost function Tables(chain: seq<Obj>): (ts: seq<Table>)
    reads chain
    ensures |ts| == |chain| && forall i :: 0 <= i < |ts| ==> ts[i] == chain[i].table
  {
    seq(|chain|, i requires 0 <= i < |chain| reads chain => chain[i].table)
  }

  /** The innermost scope that defines the name, or the number of scopes. */
  ghost function Holder(ts: seq<Table>, name: string): (h: nat)
    ensures h <= |ts|
  {
    if ts == [] || name in ts[0] then 0 else 1 + Holder(ts[1..], name)
  }

  ghost function Lookup(ts: seq<Table>, name: string): Option<Prop> {
    var h := Holder(ts, name);
    if h < |ts| then At(ts[h], name) else None
  }

  ghost function Value(p: Option<Prop>): Option<Obj> {
    if p.Some? then Some(p.value.ptr) else None
  }

  /** Where an assignment goes: to the innermost scope that defines the name, else to the first scope. */
  ghost function Target(ts: seq<Table>, name: string): (t: nat)
    requires ts != []
    ensures t < |ts|
  {
    if Holder(ts, name) < |ts| then Holder(ts, name) else 0
  }

  /** All tables after an assignment: one binding of one table is new. */
  ghost function Assigned(ts: seq<Table>, chain: seq<Obj>, name: string, val: Obj): (r: seq<Table>)
    requires |ts| == |chain| > 0
    ensures |r| == |ts|
  {
    var t := Target(ts, name);
    ts[t := ts[t][name := Written(At(ts[t], name), chain[t], val, None)]]
  }

  lemma {:induction false} NoScopeTwice(chain: seq<Obj>, i: nat, j: nat)
    requires IsScopeChain(chain) && i < j < |chain|
    ensures chain[i] != chain[j]
    decreases |chain| - j
  {
    assert chain[i].parent == chain[i + 1];
    if j < |chain| - 1 {
      assert chain[j].parent == chain[j + 1];
      NoScopeTwice(chain, i + 1, j + 1);
    }
  }

  lemma AllDistinct(chain: seq<Obj>)
    requires IsScopeChain(chain)
    ensures forall i, j :: 0 <= i < j < |chain| ==> chain[i] != chain[j]
  {
    forall i, j | 0 <= i < j < |chain| ensures chain[i] != chain[j] {
      NoScopeTwice(chain, i, j);
    }
  }

  lemma {:induction false} HolderIs(ts: seq<Table>, name: string, h: nat)
    requires h <= |ts| && (h < |ts| ==> name in ts[h]) && forall j :: 0 <= j < h ==> name !in ts[j]
    ensures Holder(ts, name) == h
  {
    if h > 0 {
      HolderIs(ts[1..], name, h - 1);
    }
  }

  lemma {:induction false} HolderHolds(ts: seq<Table>, name: string)
    ensures var h := Holder(ts, name);
      (h < |ts| ==> name in ts[h]) && forall j :: 0 <= j < h ==> name !in ts[j]
  {
    if ts != [] && name !in ts[0] {
      HolderHolds(ts[1..], name);
    }
  }

  /** Lookup depends on nothing but which tables define the name and with what. */
  lemma {:induction false} SameBindings(ts: seq<Table>, us: seq<Table>, name: string)
    requires |ts| == |us| && forall i :: 0 <= i < |ts| ==> At(ts[i], name) == At(us[i], name)
    ensures Lookup(ts, name) == Lookup(us, name)
  {
    HolderHolds(ts, name);
    HolderIs(us, name, Holder(ts, name)) by {
      forall i | 0 <= i < |ts| ensures name in ts[i] <==> name in us[i] {
        assert At(ts[i], name) == At(us[i], name);
      }
    }
  }

  /** The innermost scope that defines the name gets the value and keeps its flags; when none does, the first
      scope gets a new property with all three flags; no other scope changes. */
  lemma AssignsWhere(ts: seq<Table>, chain: seq<Obj>, name: string, val: Obj, t: nat)
    requires t < |ts| == |chain|
    requires (name in ts[t] && forall j :: 0 <= j < t ==> name !in ts[j])
      || (t == 0 && forall j :: 0 <= j < |ts| ==> name !in ts[j])
    ensures Assigned(ts, chain, name, val)
      == ts[t := ts[t][name := Prop(val, if name in ts[t] then ts[t][name].flags else Flags(true, true, true), val == chain[t])]]
  {
    HolderIs(ts, name, if name in ts[t] then t else |ts|);
  }

  /** After an assignment the name reads as the new value from the assigning scope and every scope up to the
      one written; every other name, and this name above it, reads as before from every scope. */
  lemma ReadsAfterAssigning(ts: seq<Table>, chain: seq<Obj>, name: string, val: Obj, other: string, j: nat)
    requires |ts| == |chain| > 0 && j < |ts|
    ensures var us, t := Assigned(ts, chain, name, val), Target(ts, name);
      if other == name && j <= t then Value(Lookup(us[j..], other)) == Some(val)
      else Lookup(us[j..], other) == Lookup(ts[j..], other)
  {
    var us, t := Assigned(ts, chain, name, val), Target(ts, name);
    HolderHolds(ts, name);
    if other == name && j <= t {
      assert forall i :: 0 <= i < t ==> name !in us[i];
      HolderIs(us[j..], name, t - j);
    } else {
      SameBindings(us[j..], ts[j..], other);
    }
  }

  lemma LookupIs(ts: seq<Table>, name: string, h: nat)
    requires h <= |ts| && (h < |ts| ==> name in ts[h]) && forall j :: 0 <= j < h ==> name !in ts[j]
    ensures Lookup(ts, name) == if h < |ts| then Some(ts[h][name]) else None
  {
    HolderIs(ts, name, h);
  }

  lemma WithoutInnermost(ts: seq<Table>, us: seq<Table>, h: nat, rest: seq<Table>, name: string)
    requires h < |ts| == |us| && h + 1 + |rest| == |ts| && name !in us[h]
    requires forall j :: 0 <= j < h ==> name !in us[j]
    requires forall j :: 0 <= j < |rest| ==> us[h + 1 + j] == rest[j]
    ensures Lookup(us, name) == Lookup(rest, name)
  {
    hide Lookup, Holder;
    HolderHolds(rest, name);
    var g := Holder(rest, name);
    forall j | 0 <= j < h + 1 + g ensures name !in us[j] {
      if j > h {
        assert us[h + 1 + (j - h - 1)] == rest[j - h - 1];
      }
    }
    LookupIs(rest, name, g);
    LookupIs(us, name, h + 1 + g);
  }

  /** Deleting the innermost binding uncovers the next one further out. */
  lemma DeletingUncovers(ts: seq<Table>, name: string)
    requires Holder(ts, name) < |ts|
    ensures var h := Holder(ts, name);
      Lookup(ts[h := ts[h] - {name}], name) == Lookup(ts[h + 1..], name)
  {
    hide Lookup, Holder;
    var h := Holder(ts, name);
    HolderHolds(ts, name);
    WithoutInnermost(ts, ts[h := ts[h] - {name}], h, ts[h + 1..], name);
  }
}
