/**
 * `Result` from x.hpp: a status code, a message and three type-erased data
 * slots. `setResult` and `setError` each assign some of the fields and leave
 * the rest as they were.
 */
module ResultType {
  import opened Wrappers
  import opened AnyValue

  /** `u32`: the width of the status code. */
  newtype u32 = x: int | 0 <= x < 0x1_0000_0000

  /** The code a default-constructed `Result` carries: not ok. */
  const DefaultCode: u32 := 0xFFFF_FFFF

  class Result {
    var code: u32
    var msg: string
    var dat1: Any  // None: an empty std::any
    var dat2: Any
    var dat3: Any

    /** `Result()`: code 0xFFFFFFFF, empty message, three empty slots. */
    constructor ()
      ensures code == DefaultCode && msg == "" && dat1 == None && dat2 == None && dat3 == None
      ensures !Ok()
    {
      code, msg := DefaultCode, "";
      dat1, dat2, dat3 := None, None, None;
    }

    /** `Result(code, msg = "")`: the given code and message, three empty slots. */
    constructor WithCode(code: u32, msg: string := "")
      ensures this.code == code && this.msg == msg && dat1 == None && dat2 == None && dat3 == None
      ensures Ok() <==> code == 0
    {
      this.code, this.msg := code, msg;
      dat1, dat2, dat3 := None, None, None;
    }

    /** The implicit copy constructor: every field equal to `other`'s. */
    constructor Copy(other: Result)
      ensures code == other.code && msg == other.msg
      ensures dat1 == other.dat1 && dat2 == other.dat2 && dat3 == other.dat3
    {
      code, msg := other.code, other.msg;
      dat1, dat2, dat3 := other.dat1, other.dat2, other.dat3;
    }

    /** The implicit copy assignment: every field takes `other`'s value. */
    method Assign(other: Result)
      modifies this
      ensures code == old(other.code) && msg == old(other.msg)
      ensures dat1 == old(other.dat1) && dat2 == old(other.dat2) && dat3 == old(other.dat3)
    {
      code, msg := other.code, other.msg;
      dat1, dat2, dat3 := other.dat1, other.dat2, other.dat3;
    }

    /** `ok()`, and `operator bool`, which returns `ok()`: a `Result` still carrying the default code is not ok. */
    predicate Ok()
      reads this
      ensures code == DefaultCode ==> !Ok()
    {
      code == 0
    }

    /**
     * `setResult(d1, d2 = nullptr, d3 = nullptr)`: stores the data, an empty
     * `std::any` included, and sets code 0; the message stays.
     */
    method SetResult(d1: Any, d2: Any := Some(NullPtr), d3: Any := Some(NullPtr))
      modifies this
      ensures dat1 == d1 && dat2 == d2 && dat3 == d3
      ensures code == 0 && Ok()
      ensures msg == old(msg)
    {
      dat1, dat2, dat3 := d1, d2, d3;
      code := 0;
    }

    /** `setError(code, msg = "")`: sets code and message; the data slots stay. */
    method SetError(code: u32, msg: string := "")
      modifies this
      ensures this.code == code && this.msg == msg
      ensures Ok() <==> code == 0
      ensures dat1 == old(dat1) && dat2 == old(dat2) && dat3 == old(dat3)
    {
      this.code := code;
      this.msg := msg;
    }

    /** `dat1<T>()`: the first slot as type `t`, or `bad_any_cast` when it is empty or of another type. */
    function Dat1(t: TypeTag): (r: Outcome<Value>)
      reads this
      ensures r.Ok? <==> dat1.Some? && dat1.value.Tag() == t
      ensures r.Ok? ==> dat1 == Some(r.value)
      ensures r.Throws? ==> r.exception == BadAnyCast
    {
      AnyCast(dat1, t)
    }

    /** `dat2<T>()`: as `dat1`, on the second slot. */
    function Dat2(t: TypeTag): (r: Outcome<Value>)
      reads this
      ensures r.Ok? <==> dat2.Some? && dat2.value.Tag() == t
      ensures r.Ok? ==> dat2 == Some(r.value)
      ensures r.Throws? ==> r.exception == BadAnyCast
    {
      AnyCast(dat2, t)
    }

    /** `dat3<T>()`: as `dat1`, on the third slot. */
    function Dat3(t: TypeTag): (r: Outcome<Value>)
      reads this
      ensures r.Ok? <==> dat3.Some? && dat3.value.Tag() == t
      ensures r.Ok? ==> dat3 == Some(r.value)
      ensures r.Throws? ==> r.exception == BadAnyCast
    {
      AnyCast(dat3, t)
    }

    /** `Result::SetData(d1, d2 = nullptr, d3 = nullptr)`: a fresh default `Result` after `setResult`. */
    static method SetData(d1: Any, d2: Any := Some(NullPtr), d3: Any := Some(NullPtr)) returns (res: Result)
      ensures fresh(res)
      ensures res.Ok() && res.msg == ""
      ensures res.dat1 == d1 && res.dat2 == d2 && res.dat3 == d3
    {
      res := new Result();
      res.SetResult(d1, d2, d3);
    }

    /** `Result::OK()`: code 0, empty message, empty slots. */
    static method OK() returns (res: Result)
      ensures fresh(res)
      ensures res.Ok() && res.code == 0 && res.msg == ""
      ensures res.dat1 == None && res.dat2 == None && res.dat3 == None
    {
      res := new Result.WithCode(0, "");
    }
  }

  /** A default `Result` is not ok, has code 0xFFFFFFFF and an empty message. */
  method DefaultConstructor() returns (r: Result)
    ensures !r.Ok() && r.code == 0xFFFF_FFFF && r.msg == ""
  {
    r := new Result();
  }

  /** A `Result` built with code 0 is ok; one built with code 404 is not; both keep their message. */
  method ParameterizedConstructor() returns (r1: Result, r2: Result)
    ensures r1.Ok() && r1.code == 0 && r1.msg == "success"
    ensures !r2.Ok() && r2.code == 404 && r2.msg == "not found"
  {
    r1 := new Result.WithCode(0, "success");
    r2 := new Result.WithCode(404, "not found");
  }

  /** `setResult(42)` makes the `Result` ok and the first slot an integer. */
  method SetResultBasic() returns (r: Result)
    ensures r.Ok() && r.code == 0 && r.Dat1(IntType) == Ok(Integer(42))
  {
    r := new Result();
    r.SetResult(Some(Integer(42)));
  }

  /** `setResult` with three values fills all three slots, each readable under its own type. */
  method SetResultMultiple() returns (r: Result)
    ensures r.Ok()
    ensures r.Dat1(IntType) == Ok(Integer(42))
    ensures r.Dat2(StringType) == Ok(Str("hello"))
    ensures r.Dat3(DoubleType) == Ok(Double(3.14))
  {
    r := new Result();
    r.SetResult(Some(Integer(42)), Some(Str("hello")), Some(Double(3.14)));
  }

  /** A vector, a string and `false` read back whole. */
  method DataAccess() returns (r: Result)
    ensures r.Dat1(IntVectorType) == Ok(IntVector([1, 2, 3]))
    ensures r.Dat2(StringType) == Ok(Str("test"))
    ensures r.Dat3(BoolType) == Ok(Boolean(false))
  {
    r := new Result();
    r.SetResult(Some(IntVector([1, 2, 3])), Some(Str("test")), Some(Boolean(false)));
  }

  /** Code 0 with an empty message is ok, and a stored `nullptr` reads back as `nullptr`. */
  method EdgeCases() returns (r1: Result, r2: Result)
    ensures r1.Ok() && r1.msg == ""
    ensures r2.Dat1(NullPtrType) == Ok(NullPtr)
  {
    r1 := new Result.WithCode(0, "");
    r2 := new Result();
    r2.SetResult(Some(NullPtr));
  }

  /**
   * After `setResult(42)` the first slot is not a string, and the defaulted
   * slots hold `nullptr`, so they are neither an integer nor a `double`.
   */
  method InvalidCast() returns (r: Result)
    ensures r.Dat1(StringType) == Throws(BadAnyCast)
    ensures r.Dat2(IntType) == Throws(BadAnyCast)
    ensures r.Dat3(DoubleType) == Throws(BadAnyCast)
  {
    r := new Result();
    r.SetResult(Some(Integer(42)));
  }

  /** `setResult` with an empty `std::any` leaves the slot empty, so no type reads it, yet the `Result` is ok. */
  method SetResultEmpty() returns (r: Result)
    ensures r.Ok()
    ensures forall t :: r.Dat1(t) == Throws(BadAnyCast)
  {
    r := new Result();
    r.SetResult(None);
  }

  /** A later `setError` makes the `Result` not ok but leaves its data readable. */
  method SetErrorKeepsData() returns (r: Result)
    ensures !r.Ok() && r.msg == "Not found" && r.Dat1(IntType) == Ok(Integer(42))
  {
    r := new Result();
    r.SetResult(Some(Integer(42)));
    r.SetError(404, "Not found");
  }
}
