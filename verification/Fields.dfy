/**
 * How records become JSON objects and back, as derived `serde` code does it: a fixed field order
 * out; on the way in any order, unknown keys ignored, a repeated known key refused, `null` or a
 * missing key read as None for an optional field; or else an array of the fields in their order.
 */
module Fields {
  import opened Wrappers
  import opened Json
  import opened JsonRoundTrip

  const I64_MIN: int := -0x8000_0000_0000_0000
  const I64_MAX: int := 0x7FFF_FFFF_FFFF_FFFF

  predicate InI64(n: int) {
    I64_MIN <= n <= I64_MAX
  }

  type i64 = n: int | -0x8000_0000_0000_0000 <= n <= 0x7FFF_FFFF_FFFF_FFFF

  // ------------------------------------------------------------------ writing

  /** A field of a record; None leaves the key out. */
  datatype Slot = Slot(key: string, value: Option<Value>)

  function Present(slots: seq<Slot>): seq<Member> {
    if |slots| == 0 then []
    else match slots[0].value
      case None => Present(slots[1..])
      case Some(v) => [Member(Some(slots[0].key), v)] + Present(slots[1..])
  }

  function OptStr(o: Option<string>): Option<Value> {
    if o.Some? then Some(Str(o.value)) else None
  }

  function OptInt(o: Option<int>): Option<Value> {
    if o.Some? then Some(Int(o.value)) else None
  }

  function Strings(ss: seq<string>): (vs: seq<Value>)
    ensures |vs| == |ss| && forall i :: 0 <= i < |ss| ==> vs[i] == Str(ss[i])
  {
    if |ss| == 0 then [] else [Str(ss[0])] + Strings(ss[1..])
  }

  // ------------------------------------------------------------------ reading

  /** Every value given for a key, in order. */
  function ValuesOf(members: seq<Member>, key: string): seq<Value> {
    if |members| == 0 then []
    else if members[0].key == Some(key) then [members[0].value] + ValuesOf(members[1..], key)
    else ValuesOf(members[1..], key)
  }

  function AsString(v: Value): Option<string> {
    if v.Str? then Some(v.s) else None
  }

  function AsI64(v: Value): Option<i64> {
    if v.Int? && InI64(v.n) then Some(v.n) else None
  }

  function AsStrings(vs: seq<Value>): Option<seq<string>> {
    if |vs| == 0 then Some([])
    else match (AsString(vs[0]), AsStrings(vs[1..]))
      case (Some(s), Some(rest)) => Some([s] + rest)
      case _ => None
  }

  predicate KeysAreText(members: seq<Member>) {
    forall i :: 0 <= i < |members| ==> members[i].key.Some?
  }

  /** The elements of an array under the names of the fields they stand for. */
  function Named(names: seq<string>, items: seq<Value>): (ms: seq<Member>)
    requires |items| <= |names|
    ensures |ms| == |items| && forall i :: 0 <= i < |ms| ==> ms[i] == Member(Some(names[i]), items[i])
  {
    if |items| == 0 then [] else [Member(Some(names[0]), items[0])] + Named(names[1..], items[1..])
  }

  /**
   * The members of a record: those of an object whose keys are all text, or the elements of an array
   * in the order of the fields. An array may stop early, but not before `least` elements.
   */
  function Record(v: Value, names: seq<string>, least: nat): Option<seq<Member>> {
    match v
    case Obj(members) => if KeysAreText(members) then Some(members) else None
    case Arr(items) => if least <= |items| <= |names| then Some(Named(names, items)) else None
    case _ => None
  }

  /** A field that must be given, once. */
  function Required(members: seq<Member>, key: string): Option<Value> {
    var vs := ValuesOf(members, key);
    if |vs| == 1 then Some(vs[0]) else None
  }

  /** A field that may be missing or null; the outer None is a repeated key. */
  function Optional(members: seq<Member>, key: string): Option<Option<Value>> {
    var vs := ValuesOf(members, key);
    if |vs| == 0 || vs == [Null] then Some(None)
    else if |vs| == 1 then Some(Some(vs[0]))
    else None
  }

  function RequiredString(members: seq<Member>, key: string): Option<string> {
    match Required(members, key)
    case None => None
    case Some(v) => AsString(v)
  }

  function RequiredI64(members: seq<Member>, key: string): Option<i64> {
    match Required(members, key)
    case None => None
    case Some(v) => AsI64(v)
  }

  function OptionalString(members: seq<Member>, key: string): Option<Option<string>> {
    match Optional(members, key)
    case None => None
    case Some(None) => Some(None)
    case Some(Some(v)) => if v.Str? then Some(Some(v.s)) else None
  }

  function OptionalI64(members: seq<Member>, key: string): Option<Option<i64>> {
    match Optional(members, key)
    case None => None
    case Some(None) => Some(None)
    case Some(Some(v)) => if v.Int? && InI64(v.n) then Some(Some(v.n)) else None
  }

  // --------------------------------------------------------- reading, declaratively

  ghost predicate Missing(members: seq<Member>, key: string) {
    forall i :: 0 <= i < |members| ==> members[i].key != Some(key)
  }

  /** The member at an index is the only one with its key. */
  ghost predicate SoleAt(members: seq<Member>, key: string, v: Value, i: nat) {
    && i < |members| && members[i] == Member(Some(key), v)
    && forall j :: 0 <= j < |members| && j != i ==> members[j].key != Some(key)
  }

  /** The key is given once, with this value. */
  ghost predicate Sole(members: seq<Member>, key: string, v: Value) {
    exists i: nat :: SoleAt(members, key, v, i)
  }

  /** An optional field: missing or null for None, else given once with a value that is not null. */
  ghost predicate Holds(members: seq<Member>, key: string, v: Option<Value>) {
    match v
    case None => Missing(members, key) || Sole(members, key, Null)
    case Some(w) => w != Null && Sole(members, key, w)
  }

  lemma {:induction false} MissingExact(members: seq<Member>, key: string)
    ensures ValuesOf(members, key) == [] <==> Missing(members, key)
  {
    if |members| > 0 {
      MissingExact(members[1..], key);
      assert forall i :: 0 < i < |members| ==> members[i] == members[1..][i - 1];
      assert forall i :: 0 <= i < |members| - 1 ==> members[1..][i] == members[i + 1];
    }
  }

  lemma {:induction false} SoleShift(members: seq<Member>, key: string, v: Value, i: nat)
    requires |members| > 0 && members[0].key != Some(key)
    ensures SoleAt(members, key, v, i + 1) <==> SoleAt(members[1..], key, v, i)
  {
    assert forall j :: 0 < j < |members| ==> members[j] == members[1..][j - 1];
    assert forall j :: 0 <= j < |members| - 1 ==> members[1..][j] == members[j + 1];
  }

  lemma {:induction false} SoleFirst(members: seq<Member>, key: string, v: Value)
    requires |members| > 0 && members[0].key == Some(key)
    ensures Sole(members, key, v) <==> members[0].value == v && Missing(members[1..], key)
  {
    assert forall j :: 0 < j < |members| ==> members[j] == members[1..][j - 1];
    assert forall j :: 0 <= j < |members| - 1 ==> members[1..][j] == members[j + 1];
    if members[0].value == v && Missing(members[1..], key) {
      assert SoleAt(members, key, v, 0);
    }
  }

  /** A key has the one value exactly when it is given once, with that value. */
  lemma {:induction false} SoleExact(members: seq<Member>, key: string, v: Value)
    ensures ValuesOf(members, key) == [v] <==> Sole(members, key, v)
  {
    if |members| > 0 && members[0].key == Some(key) {
      SoleFirst(members, key, v);
      MissingExact(members[1..], key);
      var vs, rest := ValuesOf(members, key), ValuesOf(members[1..], key);
      assert vs == [members[0].value] + rest && vs[1..] == rest && vs[0] == members[0].value;
      assert rest == [] ==> vs == [members[0].value];
    } else if |members| > 0 {
      SoleExact(members[1..], key, v);
      if Sole(members[1..], key, v) {
        var i: nat :| SoleAt(members[1..], key, v, i);
        SoleShift(members, key, v, i);
      }
      if Sole(members, key, v) {
        var i: nat :| SoleAt(members, key, v, i);
        assert i > 0;
        SoleShift(members, key, v, i - 1);
      }
    }
  }

  lemma {:induction false} RequiredExact(members: seq<Member>, key: string, v: Value)
    ensures Required(members, key) == Some(v) <==> Sole(members, key, v)
  {
    SoleExact(members, key, v);
    var vs := ValuesOf(members, key);
    assert |vs| == 1 ==> vs == [vs[0]];
  }

  /** A repeated key is refused; missing and null read the same. */
  lemma {:induction false} OptionalExact(members: seq<Member>, key: string, v: Option<Value>)
    ensures Optional(members, key) == Some(v) <==> Holds(members, key, v)
  {
    var vs := ValuesOf(members, key);
    MissingExact(members, key);
    SoleExact(members, key, Null);
    if v.Some? { SoleExact(members, key, v.value); }
    assert |vs| == 1 ==> vs == [vs[0]];
  }

  lemma {:induction false} RequiredTextExact(members: seq<Member>, key: string, s: string)
    ensures RequiredString(members, key) == Some(s) <==> Sole(members, key, Str(s))
  {
    RequiredExact(members, key, Str(s));
  }

  lemma {:induction false} RequiredNumberExact(members: seq<Member>, key: string, n: i64)
    ensures RequiredI64(members, key) == Some(n) <==> Sole(members, key, Int(n))
  {
    RequiredExact(members, key, Int(n));
  }

  lemma {:induction false} OptionalTextExact(members: seq<Member>, key: string, o: Option<string>)
    ensures OptionalString(members, key) == Some(o)
            <==> Holds(members, key, if o.Some? then Some(Str(o.value)) else None)
  {
    OptionalExact(members, key, if o.Some? then Some(Str(o.value)) else None);
  }

  lemma {:induction false} OptionalNumberExact(members: seq<Member>, key: string, o: Option<i64>)
    ensures OptionalI64(members, key) == Some(o)
            <==> Holds(members, key, if o.Some? then Some(Int(o.value)) else None)
  {
    OptionalExact(members, key, if o.Some? then Some(Int(o.value)) else None);
  }

  /** The members a value has as a record: its own, or its elements under the names of the fields. */
  lemma {:induction false} RecordExact(v: Value, names: seq<string>, least: nat, ms: seq<Member>)
    ensures Record(v, names, least) == Some(ms) <==>
            || (v == Obj(ms) && forall i :: 0 <= i < |ms| ==> ms[i].key.Some?)
            || (v.Arr? && least <= |v.items| <= |names| && |ms| == |v.items|
                && forall i :: 0 <= i < |ms| ==> ms[i] == Member(Some(names[i]), v.items[i]))
  {
    if v.Arr? && |v.items| <= |names| && |ms| == |v.items|
       && forall i :: 0 <= i < |ms| ==> ms[i] == Member(Some(names[i]), v.items[i]) {
      assert ms == Named(names, v.items);
    }
  }

  // ---------------------------------------------------------- what is passed over

  lemma {:induction false} ValuesOfAppend(a: seq<Member>, b: seq<Member>, key: string)
    ensures ValuesOf(a + b, key) == ValuesOf(a, key) + ValuesOf(b, key)
  {
    if |a| == 0 {
      assert a + b == b;
    } else {
      assert (a + b)[1..] == a[1..] + b;
      ValuesOfAppend(a[1..], b, key);
    }
  }

  /** A member under another key changes nothing, wherever it stands and whatever its value. */
  lemma {:induction false} OtherMember(a: seq<Member>, m: Member, b: seq<Member>, key: string)
    requires m.key != Some(key)
    ensures ValuesOf(a + [m] + b, key) == ValuesOf(a + b, key)
  {
    ValuesOfAppend(a + [m], b, key);
    ValuesOfAppend(a, [m], key);
    ValuesOfAppend(a, b, key);
    assert ValuesOf([m], key) == [];
  }

  // --------------------------------------------------------------- round trip

  ghost predicate DistinctKeys(slots: seq<Slot>) {
    forall i, j :: 0 <= i < j < |slots| ==> slots[i].key != slots[j].key
  }

  lemma {:induction false} NoSlotNoValue(slots: seq<Slot>, key: string)
    requires forall i :: 0 <= i < |slots| ==> slots[i].key != key
    ensures ValuesOf(Present(slots), key) == []
  {
    if |slots| > 0 {
      NoSlotNoValue(slots[1..], key);
      if slots[0].value.Some? {
        assert Present(slots)[1..] == Present(slots[1..]);
      }
    }
  }

  /** Reading a key of a written record gives the value of its slot, and only that. */
  lemma {:induction false} ReadSlot(slots: seq<Slot>, i: nat)
    requires i < |slots| && DistinctKeys(slots)
    ensures ValuesOf(Present(slots), slots[i].key)
         == if slots[i].value.Some? then [slots[i].value.value] else []
  {
    if slots[0].value.Some? {
      assert Present(slots)[1..] == Present(slots[1..]);
    }
    if i == 0 {
      NoSlotNoValue(slots[1..], slots[0].key);
    } else {
      ReadSlot(slots[1..], i - 1);
    }
  }

  lemma {:induction false} ReadAll(slots: seq<Slot>)
    requires DistinctKeys(slots)
    ensures forall i :: 0 <= i < |slots| ==>
              ValuesOf(Present(slots), slots[i].key)
              == if slots[i].value.Some? then [slots[i].value.value] else []
  {
    forall i | 0 <= i < |slots|
      ensures ValuesOf(Present(slots), slots[i].key)
           == if slots[i].value.Some? then [slots[i].value.value] else []
    {
      ReadSlot(slots, i);
    }
  }

  lemma {:induction false} AsStringsOfStrings(ss: seq<string>)
    ensures AsStrings(Strings(ss)) == Some(ss)
  {
    if |ss| > 0 {
      AsStringsOfStrings(ss[1..]);
      assert Strings(ss)[1..] == Strings(ss[1..]);
      assert ss == [ss[0]] + ss[1..];
    }
  }

  lemma {:induction false} PresentIntegral(slots: seq<Slot>)
    requires forall i :: 0 <= i < |slots| && slots[i].value.Some? ==> Integral(slots[i].value.value)
    ensures Integral(Obj(Present(slots))) && KeysAreText(Present(slots))
  {
    if |slots| > 0 {
      PresentIntegral(slots[1..]);
      var rest := Present(slots[1..]);
      assert forall i :: 0 <= i < |rest| ==> rest[i].key.Some? && Integral(rest[i].value);
    }
  }
}
