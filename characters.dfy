/**
 * The attribute store of DeCamp's Character.cs: an Attribute is a type tag
 * and a boxed value, adjusted by adding (INT) or appending (STRING) an offset
 * and undone by the inverse adjustment; a Character keeps its attributes in
 * a dictionary from names to attributes.  Boxed values are the datatype
 * Value, so an unboxing cast to the wrong type is the InvalidCast error.
 */
module Characters {
  import opened CSharpInt
  import opened Wrappers

  /** Attribute.Type without FLOAT. */
  datatype AttrType = Bool | Int | Str

  /** The boxed values an attribute holds and an adjustment offers. */
  datatype Value = BoolValue(b: bool) | IntValue(i: int32) | StrValue(s: string)

  datatype Attribute = Attribute(kind: AttrType, value: Value)

  /** Attribute.adjust: the attribute it leaves, or the exception it throws.
      BOOL attributes cannot be adjusted; INT adds or subtracts with 32-bit
      wrap-around; STRING appends, or trims the offset off the end. */
  function Adjust(a: Attribute, offset: Value, inverse: bool): (r: Result<Attribute>)
    ensures a.kind == Bool ==> r == Fail(BadArgument)
    ensures r.Ok? ==> r.value.kind == a.kind
    ensures a.kind == Int && r.Ok? ==> a.value.IntValue? && offset.IntValue? && r.value.value.IntValue?
    ensures a.kind == Str && !inverse && r.Ok? ==>
      a.value.StrValue? && offset.StrValue? && r.value.value == StrValue(a.value.s + offset.s)
  {
    match a.kind
    case Bool => Fail(BadArgument)
    case Int =>
      if !a.value.IntValue? || !offset.IntValue? then Fail(InvalidCast)
      else if inverse then Ok(a.(value := IntValue(Wrap(a.value.i as int - offset.i as int))))
      else Ok(a.(value := IntValue(Wrap(a.value.i as int + offset.i as int))))
    case Str =>
      if !a.value.StrValue? || !offset.StrValue? then Fail(InvalidCast)
      else if inverse then
        var v, o := a.value.s, offset.s;
        var idx := |v| - |o|;
        // Substring(idx) with a negative start
        if idx < 0 then Fail(ArgumentOutOfRange)
        else if o != v[idx..] then Fail(BadArgument)
        else Ok(a.(value := StrValue(v[..idx])))
      else Ok(a.(value := StrValue(a.value.s + offset.s)))
  }

  /** Adjusting an INT attribute and then adjusting it back restores it, even
      when the addition wrapped round. */
  lemma IntRoundTrip(v: int32, o: int32)
    ensures Adjust(Attribute(Int, IntValue(v)), IntValue(o), false).Ok?
    ensures Adjust(Adjust(Attribute(Int, IntValue(v)), IntValue(o), false).value, IntValue(o), true)
         == Ok(Attribute(Int, IntValue(v)))
  {
    WrapAddSub(v, o);
  }

  /** Appending to a STRING attribute and trimming the same offset restores it. */
  lemma StrRoundTrip(v: string, o: string)
    ensures Adjust(Attribute(Str, StrValue(v)), StrValue(o), false) == Ok(Attribute(Str, StrValue(v + o)))
    ensures Adjust(Attribute(Str, StrValue(v + o)), StrValue(o), true) == Ok(Attribute(Str, StrValue(v)))
  {
    assert (v + o)[|v|..] == o;
    assert (v + o)[..|v|] == v;
  }

  /** An inverse STRING adjustment succeeds exactly when the value ends with
      the offset, and then removes it; otherwise it fails and the value
      stays: an offset longer than the value fails in Substring, another
      tail fails the comparison. */
  lemma StrTrim(v: string, o: string)
    ensures var r := Adjust(Attribute(Str, StrValue(v)), StrValue(o), true);
      && (r.Ok? <==> |o| <= |v| && v[|v| - |o|..] == o)
      && (r.Ok? ==> r.value.value.s + o == v)
      && (|o| > |v| ==> r == Fail(ArgumentOutOfRange))
      && (|o| <= |v| && v[|v| - |o|..] != o ==> r == Fail(BadArgument))
  {
    if |o| <= |v| && v[|v| - |o|..] == o {
      assert v[..|v| - |o|] + v[|v| - |o|..] == v;
    }
  }

  /** Any adjustment that succeeds is undone by the inverse adjustment with
      the same offset. */
  lemma AdjustRoundTrip(a: Attribute, offset: Value)
    requires Adjust(a, offset, false).Ok?
    ensures Adjust(Adjust(a, offset, false).value, offset, true) == Ok(a)
  {
    match a.kind
    case Int =>
      IntRoundTrip(a.value.i, offset.i);
    case Str =>
      StrRoundTrip(a.value.s, offset.s);
  }

  /** The entry of a dictionary: C# null for an absent key. */
  function Lookup(attrs: map<string, Attribute>, key: string): (r: Option<Attribute>)
    ensures r.None? <==> key !in attrs
    ensures r.Some? ==> r.value == attrs[key]
  {
    if key in attrs then Some(attrs[key]) else None
  }

  /** Character.setRawAttribute on the dictionary: null removes the key,
      anything else is stored under it, and no other key changes. */
  function SetRaw(attrs: map<string, Attribute>, key: string, attr: Option<Attribute>): (r: map<string, Attribute>)
    ensures Lookup(r, key) == attr
    ensures forall k :: k != key ==> Lookup(r, k) == Lookup(attrs, k)
  {
    if attr.None? then attrs - {key} else attrs[key := attr.value]
  }

  /** Storing the entry a key had before puts the dictionary back as it was,
      whether the key was there or not. */
  lemma SetRawRestores(attrs: map<string, Attribute>, key: string, attr: Option<Attribute>)
    ensures SetRaw(SetRaw(attrs, key, attr), key, Lookup(attrs, key)) == attrs
  {
    var r := SetRaw(SetRaw(attrs, key, attr), key, Lookup(attrs, key));
    forall k
      ensures k in r <==> k in attrs
      ensures k in r ==> r[k] == attrs[k]
    {
      assert Lookup(r, k) == Lookup(attrs, k);
    }
  }

  /** Character.setAttribute on the dictionary: a BOOL attribute set to
      false is cleared, any other value is stored as a new attribute of the
      given type; a BOOL type with a value that is not a bool fails the
      unboxing cast and changes nothing. */
  function SetEntry(attrs: map<string, Attribute>, key: string, value: Value, kind: AttrType)
    : (r: Result<map<string, Attribute>>)
    ensures kind == Bool && !value.BoolValue? ==> r == Fail(InvalidCast)
    ensures kind == Bool && value == BoolValue(false) ==> r == Ok(SetRaw(attrs, key, None))
    ensures kind != Bool || value == BoolValue(true) ==> r == Ok(SetRaw(attrs, key, Some(Attribute(kind, value))))
    ensures r.Ok? ==> forall k :: k != key ==> Lookup(r.value, k) == Lookup(attrs, k)
  {
    if kind == Bool && !value.BoolValue? then Fail(InvalidCast)
    else if kind == Bool && !value.b then Ok(SetRaw(attrs, key, None))
    else Ok(SetRaw(attrs, key, Some(Attribute(kind, value))))
  }

  /** Character.adjustAttribute on the dictionary: nothing for an absent key,
      otherwise the named attribute adjusted (or the exception). */
  function AdjustEntry(attrs: map<string, Attribute>, key: string, offset: Value, inverse: bool)
    : (r: Result<map<string, Attribute>>)
    ensures key !in attrs ==> r == Ok(attrs)
    ensures r.Ok? ==> r.value.Keys == attrs.Keys && forall k :: k in attrs && k != key ==> r.value[k] == attrs[k]
    ensures r.Ok? && key in attrs ==> Adjust(attrs[key], offset, inverse) == Ok(r.value[key])
  {
    if key !in attrs then Ok(attrs)
    else
      match Adjust(attrs[key], offset, inverse)
      case Ok(a) => Ok(attrs[key := a])
      case Fail(e) => Fail(e)
  }

  /** An adjustment of a dictionary entry is undone by the inverse one. */
  lemma AdjustEntryRoundTrip(attrs: map<string, Attribute>, key: string, offset: Value)
    requires AdjustEntry(attrs, key, offset, false).Ok?
    ensures AdjustEntry(AdjustEntry(attrs, key, offset, false).value, key, offset, true) == Ok(attrs)
  {
    if key in attrs {
      AdjustRoundTrip(attrs[key], offset);
      var m := AdjustEntry(attrs, key, offset, false).value;
      assert m[key := attrs[key]] == attrs;
    }
  }

  class Character {
    var player: string
    var name: string
    /** The attribute dictionary. */
    var attributes: map<string, Attribute>

    constructor (player: string, name: string)
      ensures this.player == player && this.name == name && attributes == map[]
    {
      this.player := player;
      this.name := name;
      attributes := map[];
    }

    /** getRawAttribute: the attribute under `key`, or null. */
    function GetRawAttribute(key: string): (r: Option<Attribute>)
      reads this
      ensures r.None? <==> key !in attributes
      ensures r.Some? ==> r.value == attributes[key]
    {
      Lookup(attributes, key)
    }

    /** getAttribute: the value of the attribute under `key`, or null. */
    function GetAttribute(key: string): (r: Option<Value>)
      reads this
      ensures r.None? <==> key !in attributes
      ensures r.Some? ==> r.value == attributes[key].value
    {
      match GetRawAttribute(key)
      case None => None
      case Some(a) => Some(a.value)
    }

    /** setRawAttribute: null clears the key, anything else is stored. */
    method SetRawAttribute(key: string, attr: Option<Attribute>)
      modifies this`attributes
      ensures attributes == SetRaw(old(attributes), key, attr)
    {
      if attr.None? {
        ClearAttribute(key);
      } else {
        attributes := attributes[key := attr.value];
      }
    }

    /** setAttribute, as SetEntry describes. */
    method SetAttribute(key: string, value: Value, kind: AttrType) returns (failure: Option<Error>)
      modifies this`attributes
      ensures match SetEntry(old(attributes), key, value, kind)
        case Ok(m) => failure.None? && attributes == m
        case Fail(e) => failure == Some(e) && attributes == old(attributes)
    {
      var attr: Option<Attribute>;
      if kind == Bool && !value.BoolValue? {
        // the cast (bool)value
        return Some(InvalidCast);
      }
      if kind == Bool && !value.b {
        attr := None;
      } else {
        attr := Some(Attribute(kind, value));
      }
      SetRawAttribute(key, attr);
      failure := None;
    }

    /** clearAttribute: removes the key; an absent key is left alone. */
    method ClearAttribute(key: string)
      modifies this`attributes
      ensures attributes == SetRaw(old(attributes), key, None)
      ensures key !in old(attributes) ==> attributes == old(attributes)
    {
      if key !in attributes {
        return;
      }
      attributes := attributes - {key};
    }

    /** adjustAttribute: adjusts the attribute under `key` if there is one;
        when Attribute.adjust throws, nothing changes. */
    method AdjustAttribute(key: string, offset: Value, inverse: bool) returns (failure: Option<Error>)
      modifies this`attributes
      ensures match AdjustEntry(old(attributes), key, offset, inverse)
        case Ok(m) => failure.None? && attributes == m
        case Fail(e) => failure == Some(e) && attributes == old(attributes)
    {
      if key !in attributes {
        return None;
      }
      var r := Adjust(attributes[key], offset, inverse);
      match r
      case Ok(a) =>
        attributes := attributes[key := a];
        failure := None;
      case Fail(e) =>
        failure := Some(e);
    }
  }
}
