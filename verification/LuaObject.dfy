/** Lookup of dotted names in a tree of Lua tables. */
module LuaObjects {
  import opened StringUtility

  datatype LuaObject =
    | LuaNumber(value: real)
    | LuaString(text: string)
    | LuaTable(children: map<string, LuaObject>)

  /** The null pointer, or an object. */
  datatype Pointer = Null | To(obj: LuaObject)

  function GetChild(table: LuaObject, name: string): (p: Pointer)
    requires table.LuaTable?
    ensures match p
            case Null => name !in table.children
            case To(o) => name in table.children && table.children[name] == o
  {
    if name in table.children then To(table.children[name]) else Null
  }

  // ----- what a lookup finds -------------------------------------------------------------

  /** From a table its child of this name is o. */
  ghost predicate Child(table: LuaObject, name: string, o: LuaObject) {
    table.LuaTable? && name in table.children && table.children[name] == o
  }

  /** A sequence of objects in which each key leads from one object to the next. */
  ghost predicate Path(os: seq<LuaObject>, keys: seq<string>) {
    |os| == |keys| + 1 && forall k :: 0 <= k < |keys| ==> Child(os[k], keys[k], os[k + 1])
  }

  ghost predicate PathTo(os: seq<LuaObject>, from: LuaObject, keys: seq<string>, to: LuaObject) {
    Path(os, keys) && os[0] == from && os[|keys|] == to
  }

  ghost predicate Leads(from: LuaObject, keys: seq<string>, to: LuaObject) {
    exists os :: PathTo(os, from, keys, to)
  }

  /** Some of the keys lead to an object that is no table, or has no child of the next key. */
  ghost predicate BlockedAt(from: LuaObject, keys: seq<string>, n: nat, at: LuaObject) {
    n < |keys| && Leads(from, keys[..n], at) && forall o :: !Child(at, keys[n], o)
  }

  ghost predicate Blocked(from: LuaObject, keys: seq<string>) {
    exists n: nat, at :: BlockedAt(from, keys, n, at)
  }

  lemma LeadsNowhere(o: LuaObject)
    ensures Leads(o, [], o) && forall to :: Leads(o, [], to) ==> to == o
  {
    assert PathTo([o], o, [], o);
  }

  lemma LeadsOn(from: LuaObject, keys: seq<string>, child: LuaObject, to: LuaObject)
    requires keys != [] && Child(from, keys[0], child)
    ensures Leads(from, keys, to) <==> Leads(child, keys[1..], to)
  {
    if os :| PathTo(os, child, keys[1..], to) {
      assert PathTo([from] + os, from, keys, to);
    }
    if os :| PathTo(os, from, keys, to) {
      assert Child(os[0], keys[0], os[1]);
      forall k | 0 <= k < |keys| - 1 ensures Child(os[1..][k], keys[1..][k], os[1..][k + 1]) {
        assert Child(os[k + 1], keys[k + 1], os[k + 2]);
      }
      assert PathTo(os[1..], child, keys[1..], to);
    }
  }

  lemma BlockedOn(from: LuaObject, keys: seq<string>, child: LuaObject)
    requires keys != [] && Child(from, keys[0], child)
    ensures Blocked(from, keys) <==> Blocked(child, keys[1..])
  {
    if n: nat, at :| BlockedAt(child, keys[1..], n, at) {
      assert keys[..n + 1][1..] == keys[1..][..n];
      LeadsOn(from, keys[..n + 1], child, at);
      assert BlockedAt(from, keys, n + 1, at);
    }
    if n: nat, at :| BlockedAt(from, keys, n, at) {
      LeadsNowhere(from);
      assert keys[..0] == [];
      assert keys[..n][1..] == keys[1..][..n - 1];
      LeadsOn(from, keys[..n], child, at);
      assert BlockedAt(child, keys[1..], n - 1, at);
    }
  }

  /** Recursive descent along the keys. */
  function Descend(o: LuaObject, keys: seq<string>): Pointer
    decreases |keys|
  {
    if keys == [] then To(o)
    else if !o.LuaTable? || keys[0] !in o.children then Null
    else Descend(o.children[keys[0]], keys[1..])
  }

  /** Descent finds an object exactly if the keys lead to it, and nothing exactly if they
      are blocked on the way. */
  lemma {:induction false} DescendFollows(from: LuaObject, keys: seq<string>)
    ensures forall to :: Descend(from, keys) == To(to) <==> Leads(from, keys, to)
    ensures Descend(from, keys) == Null <==> Blocked(from, keys)
    decreases |keys|
  {
    if keys == [] {
      LeadsNowhere(from);
    } else if from.LuaTable? && keys[0] in from.children {
      var child := from.children[keys[0]];
      DescendFollows(child, keys[1..]);
      forall to ensures Descend(from, keys) == To(to) <==> Leads(from, keys, to) {
        LeadsOn(from, keys, child, to);
      }
      BlockedOn(from, keys, child);
    } else {
      LeadsNowhere(from);
      assert keys[..0] == [];
      assert BlockedAt(from, keys, 0, from);
      forall to, os ensures !PathTo(os, from, keys, to) {
        assert PathTo(os, from, keys, to) ==> Child(os[0], keys[0], os[1]);
      }
    }
  }

  /** GetLuaObject of a vector of keys. */
  method GetLuaObjectByKeys(table: LuaObject, keys: seq<string>) returns (found: Pointer)
    requires table.LuaTable?
    ensures found == if keys == [] then Null else Descend(table, keys)
    ensures forall o :: found == To(o) <==> keys != [] && Leads(table, keys, o)
    ensures found == Null <==> keys == [] || Blocked(table, keys)
  {
    DescendFollows(table, keys);
    if |keys| == 0 {
      return Null;
    }
    var obj := To(table);
    var i := 0;
    while i < |keys|
      invariant 0 <= i <= |keys|
      invariant Descend(table, keys) == if obj.Null? then Null else Descend(obj.obj, keys[i..])
    {
      if obj.Null? {
        return Null;
      }
      if !obj.obj.LuaTable? {
        return Null;
      }
      assert keys[i..][1..] == keys[i + 1..];
      obj := GetChild(obj.obj, keys[i]);
      i := i + 1;
    }
    found := obj;
  }

  /** GetLuaObject of a dotted name. */
  method GetLuaObject(table: LuaObject, name: string) returns (found: Pointer)
    requires table.LuaTable?
    ensures found == Lookup(table, name)
    ensures forall o :: found == To(o) <==> Parts(name, '.') != [] && Leads(table, Parts(name, '.'), o)
    ensures found == Null <==> Parts(name, '.') == [] || Blocked(table, Parts(name, '.'))
  {
    var keys := SplitString(name, '.');
    if keys == [] {
      return Null;
    }
    found := GetLuaObjectByKeys(table, keys);
  }

  function Lookup(table: LuaObject, name: string): Pointer {
    if Parts(name, '.') == [] then Null else Descend(table, Parts(name, '.'))
  }

  /** Looking up the joined name of a path is recursive descent along the path; an empty
      last key is ignored, and the empty name finds nothing. */
  lemma LookupIsDescent(table: LuaObject, keys: seq<string>)
    requires keys != [] && Plain(keys, '.')
    ensures Lookup(table, Join(keys, '.')) ==
              if keys == [""] then Null
              else if keys[|keys| - 1] == "" then Descend(table, keys[..|keys| - 1])
              else Descend(table, keys)
  {
    PartsOfJoin(keys, '.');
  }

  /** Two stages of a lookup compose. */
  lemma {:induction false} DescendAppend(o: LuaObject, front: seq<string>, back: seq<string>)
    ensures Descend(o, front + back) ==
              match Descend(o, front) case Null => Null case To(mid) => Descend(mid, back)
    decreases |front|
  {
    if front == [] {
      assert front + back == back;
    } else {
      assert (front + back)[1..] == front[1..] + back;
      if o.LuaTable? && front[0] in o.children {
        DescendAppend(o.children[front[0]], front[1..], back);
      }
    }
  }
}
