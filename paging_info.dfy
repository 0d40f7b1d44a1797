/**
 * The paging block of a SonarQube web-service answer as the Sonar importer reads it: three
 * 32-bit integers with Java's `equals`, `hashCode` and `toString`.
 */
module PagingInfoModel {
  import opened Wrappers
  import opened Strings

  const INT_MIN: int := -0x8000_0000
  const INT_RANGE: int := 0x1_0000_0000

  newtype int32 = x: int | -0x8000_0000 <= x < 0x8000_0000

  /** Java `int` arithmetic: the result is reduced into the 32-bit range (two's complement). */
  function Wrap(x: int): (r: int32)
    ensures Congruent(r as int, x)
  {
    ((x - INT_MIN) % INT_RANGE + INT_MIN) as int32
  }

  /** What `equals` may be handed: `null`, a `PagingInfo`, or an object of some other class. */
  datatype JavaObject = PagingInfoObject(info: PagingInfo) | OtherObject(className: string)

  datatype PagingInfo = PagingInfo(pageIndex: int32, pageSize: int32, total: int32) {

    /**
     * `equals`: not equal to `null` or to an object of another class; otherwise equal when
     * the page index, the page size and the total agree. (The identity shortcut gives the
     * same answer as the field comparison on a value.)
     */
    function Equals(o: Option<JavaObject>): (r: bool)
      ensures r <==> o == Some(PagingInfoObject(this))
    {
      match o
      case None => false
      case Some(OtherObject(_)) => false
      case Some(PagingInfoObject(that)) =>
        if pageIndex != that.pageIndex then false
        else if pageSize != that.pageSize then false
        else total == that.total
    }

    /**
     * `hashCode`: `result` starts at the page index and is multiplied by 31 and increased by
     * the next field twice, each operation wrapping around in 32 bits.
     */
    function HashCode(): (h: int32)
      ensures h == Wrap(961 * pageIndex as int + 31 * pageSize as int + total as int)
    {
      var result := pageIndex;
      var result := Wrap(Wrap(31 * result as int) as int + pageSize as int);
      var result := Wrap(Wrap(31 * result as int) as int + total as int);
      HashCodeClosedForm(this);
      result
    }

    /** `toString`: `PagingInfo{pageIndex=…, pageSize=…, total=…}` with the decimal values. */
    function ToString(): (s: string)
      ensures "PagingInfo{pageIndex=" <= s
      ensures |s| > 0 && s[|s| - 1] == '}'
    {
      "PagingInfo{pageIndex=" + IntToString(pageIndex as int)
        + ", pageSize=" + IntToString(pageSize as int)
        + ", total=" + IntToString(total as int) + "}"
    }
  }

  lemma EqualsReflexive(a: PagingInfo)
    ensures a.Equals(Some(PagingInfoObject(a)))
  {
  }

  lemma EqualsSymmetric(a: PagingInfo, b: PagingInfo)
    ensures a.Equals(Some(PagingInfoObject(b))) == b.Equals(Some(PagingInfoObject(a)))
  {
  }

  /** Wrapping after every step is wrapping once at the end. */
  lemma HashCodeClosedForm(info: PagingInfo)
    ensures
      var first := Wrap(Wrap(31 * info.pageIndex as int) as int + info.pageSize as int);
      Wrap(Wrap(31 * first as int) as int + info.total as int)
        == Wrap(961 * info.pageIndex as int + 31 * info.pageSize as int + info.total as int)
  {
    var pi, ps, t := info.pageIndex as int, info.pageSize as int, info.total as int;
    var x := 31 * pi;
    var first := Wrap(Wrap(x) as int + ps) as int;
    CongruentAdd(Wrap(x) as int, x, ps);
    CongruentTrans(first, Wrap(x) as int + ps, x + ps);
    CongruentScale(first, x + ps, 31);
    var y := 31 * first;
    assert 31 * (x + ps) == 961 * pi + 31 * ps;
    CongruentTrans(Wrap(y) as int, y, 961 * pi + 31 * ps);
    CongruentAdd(Wrap(y) as int, 961 * pi + 31 * ps, t);
    WrapCongruent(Wrap(y) as int + t, 961 * pi + 31 * ps + t);
  }

  /** Equal modulo 2^32. */
  predicate Congruent(a: int, b: int) {
    (a - b) % INT_RANGE == 0
  }

  lemma CongruentAdd(a: int, b: int, c: int)
    requires Congruent(a, b)
    ensures Congruent(a + c, b + c)
  {
    assert (a + c) - (b + c) == a - b;
  }

  lemma CongruentTrans(a: int, b: int, c: int)
    requires Congruent(a, b) && Congruent(b, c)
    ensures Congruent(a, c)
  {
    var k, l := (a - b) / INT_RANGE, (b - c) / INT_RANGE;
    assert a - c == (k + l) * INT_RANGE;
    ModShift(0, k + l);
  }

  lemma CongruentScale(a: int, b: int, c: int)
    requires Congruent(a, b)
    ensures Congruent(c * a, c * b)
  {
    var k := (a - b) / INT_RANGE;
    assert a - b == k * INT_RANGE;
    assert c * a - c * b == (c * k) * INT_RANGE by {
      assert c * a - c * b == c * (a - b);
    }
    ModShift(0, c * k);
  }

  /** Numbers that agree modulo 2^32 wrap to the same `int`. */
  lemma WrapCongruent(a: int, b: int)
    requires Congruent(a, b)
    ensures Wrap(a) == Wrap(b)
  {
    var k := (a - b) / INT_RANGE;
    assert a - INT_MIN == (b - INT_MIN) + k * INT_RANGE;
    ModShift(b - INT_MIN, k);
  }

  lemma ModShift(x: int, k: int)
    ensures (x + k * INT_RANGE) % INT_RANGE == x % INT_RANGE
  {
  }

  /** Equal objects have equal hash codes. */
  lemma EqualsConsistentWithHashCode(a: PagingInfo, b: PagingInfo)
    requires a.Equals(Some(PagingInfoObject(b)))
    ensures a.HashCode() == b.HashCode()
  {
  }

  /** The rendering split at its commas: the three `name=value` parts. */
  lemma ToStringParts(info: PagingInfo)
    ensures Split(info.ToString(), ',') ==
      ["PagingInfo{pageIndex=" + IntToString(info.pageIndex as int),
       " pageSize=" + IntToString(info.pageSize as int),
       " total=" + IntToString(info.total as int) + "}"]
  {
    var x := "PagingInfo{pageIndex=" + IntToString(info.pageIndex as int);
    var y := " pageSize=" + IntToString(info.pageSize as int);
    var z := " total=" + IntToString(info.total as int) + "}";
    NoCommaInInt(info.pageIndex as int);
    NoCommaInInt(info.pageSize as int);
    NoCommaInInt(info.total as int);
    assert ',' !in x && ',' !in y && ',' !in z;
    SplitThree(x, y, z, ',');
    var s1, s2 := " pageSize=", " total=";
    assert ", pageSize=" == [','] + s1 && ", total=" == [','] + s2;
    AppendAssociative(x, [','], s1);
    AppendAssociative(x + [','], s1, IntToString(info.pageSize as int));
    var w := x + [','] + y;
    AppendAssociative(w, [','], s2);
    AppendAssociative(w + [','], s2, IntToString(info.total as int));
    AppendAssociative(w + [','], s2 + IntToString(info.total as int), "}");
    assert info.ToString() == w + [','] + z;
  }

  lemma NoCommaInInt(i: int)
    ensures ',' !in IntToString(i)
  {
  }

  /** Different paging blocks render differently: the rendering names all three fields. */
  lemma ToStringInjective(a: PagingInfo, b: PagingInfo)
    requires a.ToString() == b.ToString()
    ensures a == b
  {
    ToStringParts(a);
    ToStringParts(b);
    var pa, pb := Split(a.ToString(), ','), Split(b.ToString(), ',');
    assert pa == pb;
    var n0, n1, n2 := |"PagingInfo{pageIndex="|, |" pageSize="|, |" total="|;
    assert pa[0][n0..] == IntToString(a.pageIndex as int) && pb[0][n0..] == IntToString(b.pageIndex as int);
    assert pa[1][n1..] == IntToString(a.pageSize as int) && pb[1][n1..] == IntToString(b.pageSize as int);
    assert pa[2][n2..|pa[2]| - 1] == IntToString(a.total as int) && pb[2][n2..|pb[2]| - 1] == IntToString(b.total as int);
    IntToStringInjective(a.pageIndex as int, b.pageIndex as int);
    IntToStringInjective(a.pageSize as int, b.pageSize as int);
    IntToStringInjective(a.total as int, b.total as int);
  }
}
