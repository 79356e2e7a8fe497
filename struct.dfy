/**
 * `Struct` from x.hpp: a table from string keys to type-erased values, held
 * in an `unordered_map<str, any>` that `add`, `remove` and `clear` change in
 * place.
 */
module StructType {
  import opened Wrappers
  import opened AnyValue

  /**
   * The table an initializer list builds: the pairs are stored one after the
   * other, so a later pair overwrites an earlier one with the same key.
   */
  function PairsToMap(init: seq<(string, Any)>): map<string, Any>
    decreases |init|
  {
    if |init| == 0 then map[]
    else PairsToMap(init[..|init| - 1])[init[|init| - 1].0 := init[|init| - 1].1]
  }

  /** The keys of the table are exactly the keys of the pairs. */
  lemma {:induction false} PairsToMapKeys(init: seq<(string, Any)>)
    ensures PairsToMap(init).Keys == set p | p in init :: p.0
    decreases |init|
  {
    if |init| > 0 {
      var front, last := init[..|init| - 1], init[|init| - 1];
      PairsToMapKeys(front);
      assert init == front + [last];
      assert (set p | p in init :: p.0) == (set p | p in front :: p.0) + {last.0};
    }
  }

  /** Each key maps to the value of the last pair that carries it. */
  lemma {:induction false} PairsToMapLastWins(init: seq<(string, Any)>, i: nat)
    requires i < |init|
    requires forall j :: i < j < |init| ==> init[j].0 != init[i].0
    ensures init[i].0 in PairsToMap(init) && PairsToMap(init)[init[i].0] == init[i].1
    decreases |init|
  {
    if i < |init| - 1 {
      var front := init[..|init| - 1];
      assert front[i] == init[i];
      assert forall j :: i < j < |front| ==> front[j] == init[j];
      PairsToMapLastWins(front, i);
    }
  }

  class Struct {
    var data: map<string, Any>  // None: an empty std::any

    /** `Struct()`: an empty table. */
    constructor ()
      ensures data == map[]
      ensures IsEmpty()
    {
      data := map[];
    }

    /** `Struct{ {k1, v1}, {k2, v2}, ... }`: stores each pair in turn. */
    constructor FromPairs(init: seq<(string, Any)>)
      ensures data == PairsToMap(init)
    {
      var m := map[];
      for i := 0 to |init|
        invariant m == PairsToMap(init[..i])
      {
        assert init[..i + 1][..i] == init[..i];
        m := m[init[i].0 := init[i].1];
      }
      assert init[..|init|] == init;
      data := m;
    }

    /** The copy constructor: the same entries as `other`. */
    constructor Copy(other: Struct)
      ensures data == other.data
    {
      data := other.data;
    }

    /** Copy assignment: replaces every entry by those of `other`; assigning a table to itself changes nothing. */
    method Assign(other: Struct)
      modifies this
      ensures data == old(other.data)
    {
      if this != other {
        data := other.data;
      }
    }

    /** `has(key)`. */
    predicate Has(key: string)
      reads this
    {
      key in data
    }

    /** `size()`. */
    function Size(): nat
      reads this
    {
      |data|
    }

    /** `empty()`: the same answer as `size() == 0`, and then no key is present. */
    predicate IsEmpty()
      reads this
      ensures IsEmpty() <==> Size() == 0
      ensures IsEmpty() ==> forall k :: !Has(k)
    {
      |data| == 0
    }

    /**
     * `get<T>(key)`: the stored value when it has type `t`. A missing key
     * makes `data_.at` throw `std::out_of_range`, which the handler does not
     * catch; an empty `std::any` or a value of another type makes `any_cast`
     * throw, and the handler turns that into a `runtime_error` naming the key.
     */
    function Get(key: string, t: TypeTag): (r: Outcome<Value>)
      reads this
      ensures key !in data ==> r == Throws(OutOfRange)
      ensures r.Ok? <==> key in data && data[key].Some? && data[key].value.Tag() == t
      ensures r.Ok? ==> data[key] == Some(r.value)
      ensures key in data && !r.Ok? ==> r == Throws(RuntimeError("Type mismatch for key: " + key))
    {
      if key !in data then Throws(OutOfRange)
      else
        match AnyCast(data[key], t)
        case Ok(v) => Ok(v)
        case Throws(_) => Throws(RuntimeError("Type mismatch for key: " + key))
    }

    /**
     * `add(key, value)`: inserts or overwrites one entry and leaves the others
     * alone. A value reads back under its own type; an empty `std::any` is
     * present but reads back as a type mismatch under every type.
     */
    method Add(key: string, value: Any)
      modifies this
      ensures data == old(data)[key := value]
      ensures Has(key)
      ensures value.Some? ==> Get(key, value.value.Tag()) == Ok(value.value)
      ensures value.None? ==> forall t :: Get(key, t) == Throws(RuntimeError("Type mismatch for key: " + key))
      ensures Size() == old(Size()) + (if key in old(data) then 0 else 1)
    {
      data := data[key := value];
    }

    /** `remove(key)`: erases one entry if present; a missing key is a no-op. */
    method Remove(key: string)
      modifies this
      ensures data == old(data) - {key}
      ensures !Has(key)
      ensures forall k :: k != key ==> Has(k) == old(Has(k))
      ensures key !in old(data) ==> data == old(data)
      ensures Size() == old(Size()) - (if key in old(data) then 1 else 0)
    {
      data := data - {key};
    }

    /** `clear()`: removes every entry. */
    method Clear()
      modifies this
      ensures data == map[]
      ensures IsEmpty() && Size() == 0
    {
      data := map[];
    }
  }

  /** `has(key)` holds exactly when `get` does not throw `out_of_range` for that key, whatever the type asked for. */
  lemma HasIffFound(s: Struct, key: string)
    ensures s.Has(key) ==> forall t :: s.Get(key, t) != Throws(OutOfRange)
    ensures !s.Has(key) ==> forall t :: s.Get(key, t) == Throws(OutOfRange)
  {
  }

  /** `size()` counts the keys: it is zero exactly when no key is present, and one more than the size without any present key. */
  lemma SizeCountsKeys(s: Struct)
    ensures s.Size() == 0 <==> forall k :: !s.Has(k)
    ensures forall k :: s.Has(k) ==> s.Size() == |s.data - {k}| + 1
  {
    assert (forall k :: !s.Has(k)) ==> s.data.Keys == {} by {
      assert forall k :: k in s.data ==> s.Has(k);
    }
  }

  /** The four entries the scenarios below add, of four different types. */
  const FourEntries: map<string, Any> :=
    map["int_val" := Some(Integer(42)), "str_val" := Some(Str("hello")),
        "float_val" := Some(Double(3.14)), "bool_val" := Some(Boolean(true))]

  /** Adding the four entries one after the other builds exactly that table. */
  method AddFour() returns (s: Struct)
    ensures s.data == FourEntries
    ensures fresh(s)
  {
    s := new Struct();
    s.Add("int_val", Some(Integer(42)));
    s.Add("str_val", Some(Str("hello")));
    s.Add("float_val", Some(Double(3.14)));
    s.Add("bool_val", Some(Boolean(true)));
  }

  /** Each of the four entries reads back under its own type. */
  method GetFour() returns (s: Struct)
    ensures s.Get("int_val", IntType) == Ok(Integer(42))
    ensures s.Get("str_val", StringType) == Ok(Str("hello"))
    ensures s.Get("float_val", DoubleType) == Ok(Double(3.14))
    ensures s.Get("bool_val", BoolType) == Ok(Boolean(true))
  {
    s := AddFour();
  }

  /** Of those four entries one is removed, and a copy keeps the remaining three. */
  method RemoveThenCopy() returns (s: Struct, s2: Struct)
    ensures !s.Has("int_val") && s.Size() == 3
    ensures s2.data == s.data && s2.data.Keys == {"str_val", "float_val", "bool_val"}
    ensures s2.Size() == 3 && s2.Has("str_val") && s2.Has("float_val")
  {
    s := AddFour();
    s.Remove("int_val");
    assert s.data.Keys == {"str_val", "float_val", "bool_val"};
    s2 := new Struct.Copy(s);
  }

  /** A table built from an initializer list holds each pair's value under its key. */
  method InitializerList() returns (s4: Struct)
    ensures s4.Get("key1", IntType) == Ok(Integer(200))
    ensures s4.Get("key2", StringType) == Ok(Str("example"))
    ensures s4.Get("key3", DoubleType) == Ok(Double(1.414))
    ensures s4.Size() == 3
  {
    var init := [("key1", Some(Integer(200))), ("key2", Some(Str("example"))), ("key3", Some(Double(1.414)))];
    assert init[..2][..1] == init[..1] && init[..3] == init;
    assert PairsToMap(init[..1]) == map["key1" := Some(Integer(200))];
    assert PairsToMap(init[..2]) == map["key1" := Some(Integer(200)), "key2" := Some(Str("example"))];
    assert PairsToMap(init).Keys == {"key1", "key2", "key3"};
    s4 := new Struct.FromPairs(init);
  }

  /** Values read back under their own type, and a mismatched type is a `runtime_error` naming the key. */
  method TypeConversion() returns (s: Struct)
    ensures s.Get("int", IntType) == Ok(Integer(42))
    ensures s.Get("float", DoubleType) == Ok(Double(3.14))
    ensures s.Get("str", StringType) == Ok(Str("123"))
    ensures s.Get("str", BoolType) == Throws(RuntimeError("Type mismatch for key: " + "str"))
    ensures s.Get("int", IntVectorType) == Throws(RuntimeError("Type mismatch for key: " + "int"))
  {
    s := new Struct();
    s.Add("int", Some(Integer(42)));
    s.Add("float", Some(Double(3.14)));
    s.Add("str", Some(Str("123")));
  }

  /** An empty `std::any` is stored like any value, yet reading it is a type mismatch, not a missing key. */
  method AddEmptyAny() returns (s: Struct)
    ensures s.Has("none") && s.Size() == 1
    ensures s.Get("none", NullPtrType) == Throws(RuntimeError("Type mismatch for key: " + "none"))
    ensures s.Get("other", NullPtrType) == Throws(OutOfRange)
  {
    s := new Struct();
    s.Add("none", None);
  }
}
