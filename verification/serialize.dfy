/** The order service's `_serialize`: turn PynamoDB model instances, plain
    objects, dicts, lists and tuples into nested dicts and lists that the
    JSON encoder accepts. */
module OrderSerialize {
  import opened Results
  import opened PyText

  /** A value with no structure of its own. `Opaque` stands for anything
      else that has neither `attribute_values` nor `__dict__` (a set, a
      date, an object with slots) and that the serializer passes through. */
  datatype Prim =
    | NoneVal
    | BoolVal(b: bool)
    | IntVal(i: int)
    | StrVal(s: string)
    | Opaque(typeName: string)

  /** A Python value as `_serialize` distinguishes it. An `Instance` is an
      object with a `__dict__`; a PynamoDB model instance is one whose
      `attributeValues` is present. */
  datatype Value =
    | Leaf(p: Prim)
    | Dict(entries: seq<(Prim, Value)>)
    | List(items: seq<Value>)
    | Tuple(items: seq<Value>)
    | Instance(attributeValues: Option<Value>, attrs: seq<(string, Value)>)

  /** What `_serialize` may return: leaves, dicts and lists all the way down. */
  predicate IsPlain(v: Value) {
    match v
    case Leaf(_) => true
    case Dict(es) => forall i :: 0 <= i < |es| ==> IsPlain(es[i].1)
    case List(xs) => forall i :: 0 <= i < |xs| ==> IsPlain(xs[i])
    case Tuple(_) => false
    case Instance(_, _) => false
  }

  predicate IsPublic(name: string) {
    !StartsWith(name, "_")
  }

  /** The attributes that `_serialize` copies out of `__dict__`, in order.
      Each public attribute is kept as often as it occurs and every other
      one is dropped; `PublicAttrsKeepOrder` adds that the order is kept. */
  function PublicAttrs(attrs: seq<(string, Value)>): (r: seq<(string, Value)>)
    ensures forall e :: e in r ==> e in attrs && IsPublic(e.0)
    ensures forall e :: e in attrs && IsPublic(e.0) ==> e in r
    ensures forall e :: multiset(r)[e] == (if IsPublic(e.0) then multiset(attrs)[e] else 0)
    ensures |r| <= |attrs|
  {
    if attrs == [] then []
    else
      assert attrs == [attrs[0]] + attrs[1..];
      if IsPublic(attrs[0].0) then [attrs[0]] + PublicAttrs(attrs[1..])
      else PublicAttrs(attrs[1..])
  }

  /** The kept attributes appear in `__dict__` order: they are `attrs` with
      the private ones deleted. */
  lemma {:induction false} PublicAttrsKeepOrder(attrs: seq<(string, Value)>) returns (idx: seq<int>)
    ensures EmbedsBy(PublicAttrs(attrs), attrs, idx)
    ensures IsSubsequence(PublicAttrs(attrs), attrs)
    decreases |attrs|
  {
    if attrs == [] {
      idx := [];
    } else {
      var rest := PublicAttrs(attrs[1..]);
      var tail := PublicAttrsKeepOrder(attrs[1..]);
      var shifted := EmbedShift(rest, attrs, tail);
      if IsPublic(attrs[0].0) {
        idx := EmbedCons(rest, attrs, shifted);
      } else {
        idx := shifted;
      }
    }
    assert EmbedsBy(PublicAttrs(attrs), attrs, idx);
  }

  /** `_serialize(obj)`, checking in the source's order: `attribute_values`
      first, then dict, then list or tuple, then `__dict__`, and returning
      anything else unchanged. */
  function Serialize(v: Value): (r: Value)
    ensures IsPlain(r)
    ensures v.Leaf? ==> r == v
    ensures v.Instance? && v.attributeValues.Some? ==> r == Serialize(v.attributeValues.value)
    ensures v.Dict? ==> r.Dict? && |r.entries| == |v.entries|
    ensures v.Dict? ==> forall i :: 0 <= i < |v.entries| ==> r.entries[i] == (v.entries[i].0, Serialize(v.entries[i].1))
    ensures v.List? || v.Tuple? ==> r.List? && |r.items| == |v.items|
    ensures v.List? || v.Tuple? ==> forall i :: 0 <= i < |v.items| ==> r.items[i] == Serialize(v.items[i])
    ensures v.Instance? && v.attributeValues.None? ==> r.Dict? && |r.entries| <= |v.attrs|
    decreases v
  {
    match v
    case Instance(Some(av), _) => Serialize(av)
    case Dict(es) =>
      Dict(seq(|es|, i requires 0 <= i < |es| => (es[i].0, Serialize(es[i].1))))
    case List(xs) => List(seq(|xs|, i requires 0 <= i < |xs| => Serialize(xs[i])))
    case Tuple(xs) => List(seq(|xs|, i requires 0 <= i < |xs| => Serialize(xs[i])))
    case Instance(None, attrs) =>
      var pub := PublicAttrs(attrs);
      Dict(seq(|pub|, i requires 0 <= i < |pub| => (StrVal(pub[i].0), Serialize(pub[i].1))))
    case Leaf(p) => Leaf(p)
  }

  // ---------------------------------------------------------------------------
  // Properties

  /** A value that is already plain comes back unchanged. */
  lemma {:induction false} PlainFixed(v: Value)
    requires IsPlain(v)
    ensures Serialize(v) == v
    decreases v
  {
    match v
    case Leaf(_) =>
    case Dict(es) =>
      forall i | 0 <= i < |es|
        ensures Serialize(es[i].1) == es[i].1
      {
        PlainFixed(es[i].1);
      }
      assert Serialize(v).entries == es;
    case List(xs) =>
      forall i | 0 <= i < |xs|
        ensures Serialize(xs[i]) == xs[i]
      {
        PlainFixed(xs[i]);
      }
      assert Serialize(v).items == xs;
  }

  /** Serialising a serialised value changes nothing more. */
  lemma SerializeIdempotent(v: Value)
    ensures Serialize(Serialize(v)) == Serialize(v)
  {
    PlainFixed(Serialize(v));
  }

  /** No pass-through value anywhere: not as a leaf, not as a dict key, not
      inside an object's attributes. */
  predicate NoOpaque(v: Value)
    decreases v
  {
    match v
    case Leaf(p) => !p.Opaque?
    case Dict(es) => forall i :: 0 <= i < |es| ==> !es[i].0.Opaque? && NoOpaque(es[i].1)
    case List(xs) => forall i :: 0 <= i < |xs| ==> NoOpaque(xs[i])
    case Tuple(xs) => forall i :: 0 <= i < |xs| ==> NoOpaque(xs[i])
    case Instance(av, attrs) =>
      && (av.Some? ==> NoOpaque(av.value))
      && forall i :: 0 <= i < |attrs| ==> NoOpaque(attrs[i].1)
  }

  /** The promise of the service layer: whatever is built only from JSON
      values, dicts, lists, tuples and objects serialises to plain JSON
      data. */
  lemma {:induction false} SerializeJsonReady(v: Value)
    requires NoOpaque(v)
    ensures IsPlain(Serialize(v)) && NoOpaque(Serialize(v))
    decreases v
  {
    match v
    case Leaf(_) =>
    case Instance(Some(av), _) =>
      SerializeJsonReady(av);
    case Dict(es) =>
      forall i | 0 <= i < |es|
        ensures NoOpaque(Serialize(es[i].1))
      {
        SerializeJsonReady(es[i].1);
      }
    case List(xs) =>
      forall i | 0 <= i < |xs|
        ensures NoOpaque(Serialize(xs[i]))
      {
        SerializeJsonReady(xs[i]);
      }
    case Tuple(xs) =>
      forall i | 0 <= i < |xs|
        ensures NoOpaque(Serialize(xs[i]))
      {
        SerializeJsonReady(xs[i]);
      }
    case Instance(None, attrs) =>
      var pub := PublicAttrs(attrs);
      var idx := PublicAttrsKeepOrder(attrs);
      forall i | 0 <= i < |pub|
        ensures NoOpaque(Serialize(pub[i].1))
      {
        assert pub[i] == attrs[idx[i]];
        SerializeJsonReady(attrs[idx[i]].1);
      }
  }

  predicate HasKey(es: seq<(Prim, Value)>, key: Prim) {
    exists i :: 0 <= i < |es| && es[i].0 == key
  }

  predicate HasAttr(attrs: seq<(string, Value)>, name: string) {
    exists i :: 0 <= i < |attrs| && attrs[i].0 == name
  }

  /** The dict built from an object without `attribute_values`: one entry
      per kept attribute, in order, keyed by its name and holding its
      serialised value. */
  function InstanceEntries(attrs: seq<(string, Value)>): (es: seq<(Prim, Value)>)
    ensures Serialize(Instance(None, attrs)) == Dict(es)
    ensures |es| == |PublicAttrs(attrs)|
    ensures forall i :: 0 <= i < |es| ==>
      es[i] == (StrVal(PublicAttrs(attrs)[i].0), Serialize(PublicAttrs(attrs)[i].1))
  {
    Serialize(Instance(None, attrs)).entries
  }

  /** The names kept by `PublicAttrs` are exactly the public ones. */
  lemma PublicNames(attrs: seq<(string, Value)>, name: string)
    ensures HasAttr(PublicAttrs(attrs), name) <==> HasAttr(attrs, name) && IsPublic(name)
  {
    var pub := PublicAttrs(attrs);
    if HasAttr(pub, name) {
      var i :| 0 <= i < |pub| && pub[i].0 == name;
      assert pub[i] in attrs;
      var j :| 0 <= j < |attrs| && attrs[j] == pub[i];
    }
    if HasAttr(attrs, name) && IsPublic(name) {
      var j :| 0 <= j < |attrs| && attrs[j].0 == name;
      assert attrs[j] in pub;
      var i :| 0 <= i < |pub| && pub[i] == attrs[j];
    }
  }

  /** The keys of an object's dict are its kept names, as strings. */
  lemma InstanceKeys(attrs: seq<(string, Value)>)
    ensures var es := InstanceEntries(attrs);
      |es| == |PublicAttrs(attrs)| &&
      forall i :: 0 <= i < |es| ==> es[i].0 == StrVal(PublicAttrs(attrs)[i].0)
  {
  }

  /** An object without `attribute_values` becomes a dict whose keys are
      exactly its public attribute names. */
  lemma PublicAttributesOnly(attrs: seq<(string, Value)>)
    ensures forall name :: HasKey(InstanceEntries(attrs), StrVal(name)) <==> HasAttr(attrs, name) && IsPublic(name)
  {
    var pub := PublicAttrs(attrs);
    var es := InstanceEntries(attrs);
    InstanceKeys(attrs);
    forall name
      ensures HasKey(es, StrVal(name)) <==> HasAttr(attrs, name) && IsPublic(name)
    {
      PublicNames(attrs, name);
      if HasKey(es, StrVal(name)) {
        var i :| 0 <= i < |es| && es[i].0 == StrVal(name);
        assert pub[i].0 == name;
      }
      if HasAttr(pub, name) {
        var i :| 0 <= i < |pub| && pub[i].0 == name;
        assert es[i].0 == StrVal(name);
      }
    }
  }

  /** Each entry of that dict is a string key naming one of the object's
      attributes, mapped to that attribute's serialised value. */
  lemma PublicAttributeValues(attrs: seq<(string, Value)>)
    ensures var es := InstanceEntries(attrs);
      forall i :: 0 <= i < |es| ==>
        (es[i].0.StrVal? &&
         exists j :: 0 <= j < |attrs| && attrs[j].0 == es[i].0.s && es[i].1 == Serialize(attrs[j].1))
  {
    var pub := PublicAttrs(attrs);
    var es := InstanceEntries(attrs);
    assert |es| == |pub|;
    assert forall i :: 0 <= i < |es| ==> es[i] == (StrVal(pub[i].0), Serialize(pub[i].1));
    forall i | 0 <= i < |es|
      ensures es[i].0.StrVal?
      ensures exists j :: 0 <= j < |attrs| && attrs[j].0 == es[i].0.s && es[i].1 == Serialize(attrs[j].1)
    {
      assert pub[i] in attrs;
      var j :| 0 <= j < |attrs| && attrs[j] == pub[i];
      assert attrs[j].0 == es[i].0.s && es[i].1 == Serialize(attrs[j].1);
    }
  }

  /** The names in a `__dict__` are distinct. */
  predicate DistinctNames(attrs: seq<(string, Value)>) {
    forall i, j :: 0 <= i < j < |attrs| ==> attrs[i].0 != attrs[j].0
  }

  /** An object's dict never repeats a key, because the kept attributes
      are distinct positions of its `__dict__`. */
  lemma DistinctAttributeKeys(attrs: seq<(string, Value)>)
    requires DistinctNames(attrs)
    ensures var es := InstanceEntries(attrs);
      forall i, j :: 0 <= i < j < |es| ==> es[i].0 != es[j].0
  {
    var pub := PublicAttrs(attrs);
    var es := InstanceEntries(attrs);
    var idx := PublicAttrsKeepOrder(attrs);
    forall i, j | 0 <= i < j < |es|
      ensures es[i].0 != es[j].0
    {
      assert pub[i] == attrs[idx[i]] && pub[j] == attrs[idx[j]];
      assert idx[i] < idx[j];
    }
  }
}
