/** The text of a printed record, written out field by field. */
module RecordText {
  import opened Wrappers
  import opened Json
  import opened Fields

  /** A member whose value is already text. */
  function Field(key: string, text: string): string {
    Quote(key) + ":" + text
  }

  /** Texts with a comma between any two. */
  function Joined(parts: seq<string>): string {
    if |parts| == 0 then "" else if |parts| == 1 then parts[0] else parts[0] + "," + Joined(parts[1..])
  }

  function Braced(parts: seq<string>): string {
    "{" + Joined(parts) + "}"
  }

  function Concat(parts: seq<seq<string>>): seq<string> {
    if |parts| == 0 then [] else parts[0] + Concat(parts[1..])
  }

  lemma {:induction false} MembersJoined(members: seq<Member>, parts: seq<string>)
    requires |members| == |parts| && forall i :: 0 <= i < |parts| ==> PrintMember(members[i]) == parts[i]
    ensures PrintMembers(members) == Joined(parts)
  {
    if |members| > 1 {
      MembersJoined(members[1..], parts[1..]);
    }
  }

  lemma {:induction false} ItemsJoined(items: seq<Value>, parts: seq<string>)
    requires |items| == |parts| && forall i :: 0 <= i < |parts| ==> Print(items[i]) == parts[i]
    ensures PrintItems(items) == Joined(parts)
  {
    if |items| > 1 {
      ItemsJoined(items[1..], parts[1..]);
    }
  }

  /** Each slot is printed as its part, which is empty for a slot that is left out. */
  ghost predicate Matches(slots: seq<Slot>, parts: seq<seq<string>>) {
    && |slots| == |parts|
    && forall i :: 0 <= i < |slots| ==>
         parts[i] == if slots[i].value.Some? then [Field(slots[i].key, Print(slots[i].value.value))] else []
  }

  lemma {:induction false} PresentParts(slots: seq<Slot>, parts: seq<seq<string>>)
    requires Matches(slots, parts)
    ensures var ms, texts := Present(slots), Concat(parts);
      |ms| == |texts| && forall i :: 0 <= i < |texts| ==> PrintMember(ms[i]) == texts[i]
  {
    if |slots| > 0 {
      PresentParts(slots[1..], parts[1..]);
      if slots[0].value.Some? {
        var ms, texts := Present(slots), Concat(parts);
        assert ms[1..] == Present(slots[1..]) && texts[1..] == Concat(parts[1..]);
        assert forall i :: 0 < i < |texts| ==> ms[i] == ms[1..][i - 1] && texts[i] == texts[1..][i - 1];
      } else {
        assert Concat(parts) == Concat(parts[1..]);
      }
    }
  }

  lemma {:induction false} RecordPrinted(slots: seq<Slot>, parts: seq<seq<string>>)
    requires Matches(slots, parts)
    ensures Print(Obj(Present(slots))) == Braced(Concat(parts))
  {
    PresentParts(slots, parts);
    MembersJoined(Present(slots), Concat(parts));
  }

  /** Parts that are all given. */
  lemma {:induction false} ConcatSingles(parts: seq<seq<string>>, texts: seq<string>)
    requires |parts| == |texts| && forall i :: 0 <= i < |parts| ==> parts[i] == [texts[i]]
    ensures Concat(parts) == texts
  {
    if |parts| > 0 {
      ConcatSingles(parts[1..], texts[1..]);
      assert texts == [texts[0]] + texts[1..];
    }
  }

  function Singles(texts: seq<string>): (parts: seq<seq<string>>)
    ensures |parts| == |texts| && forall i :: 0 <= i < |texts| ==> parts[i] == [texts[i]]
  {
    if |texts| == 0 then [] else [[texts[0]]] + Singles(texts[1..])
  }

  /** Texts under their keys. */
  function FieldsText(keys: seq<string>, texts: seq<string>): (fields: seq<string>)
    requires |keys| == |texts|
    ensures |fields| == |keys| && forall i :: 0 <= i < |fields| ==> fields[i] == Field(keys[i], texts[i])
  {
    if |keys| == 0 then [] else [Field(keys[0], texts[0])] + FieldsText(keys[1..], texts[1..])
  }

  /** The slots have these keys, and values that are printed as these texts. */
  ghost predicate Given(slots: seq<Slot>, keys: seq<string>, texts: seq<string>) {
    && |slots| == |keys| == |texts|
    && forall i :: 0 <= i < |slots| ==>
         slots[i].key == keys[i] && slots[i].value.Some? && Print(slots[i].value.value) == texts[i]
  }

  /** A record all of whose fields are given, printed in their order. */
  lemma {:induction false} FullRecordPrinted(slots: seq<Slot>, keys: seq<string>, texts: seq<string>)
    requires Given(slots, keys, texts)
    ensures Print(Obj(Present(slots))) == Braced(FieldsText(keys, texts))
  {
    var fields := FieldsText(keys, texts);
    RecordPrinted(slots, Singles(fields));
    ConcatSingles(Singles(fields), fields);
  }

  /** Texts under their keys, those that are given. */
  function SomeFields(keys: seq<string>, texts: seq<Option<string>>): seq<string>
    requires |keys| == |texts|
  {
    if |keys| == 0 then []
    else (if texts[0].Some? then [Field(keys[0], texts[0].value)] else []) + SomeFields(keys[1..], texts[1..])
  }

  ghost predicate SlotIs(slot: Slot, key: string, text: Option<string>) {
    && slot.key == key && (slot.value.Some? <==> text.Some?)
    && (text.Some? ==> Print(slot.value.value) == text.value)
  }

  /** A record some of whose fields are left out. */
  lemma {:induction false} PartRecordPrinted(slots: seq<Slot>, keys: seq<string>, texts: seq<Option<string>>)
    requires |slots| == |keys| == |texts| && forall i :: 0 <= i < |slots| ==> SlotIs(slots[i], keys[i], texts[i])
    ensures Print(Obj(Present(slots))) == Braced(SomeFields(keys, texts))
  {
    var parts := Parts(keys, texts);
    RecordPrinted(slots, parts);
  }

  function Parts(keys: seq<string>, texts: seq<Option<string>>): (parts: seq<seq<string>>)
    requires |keys| == |texts|
    ensures |parts| == |keys| && Concat(parts) == SomeFields(keys, texts)
    ensures forall i :: 0 <= i < |keys| ==> parts[i] == if texts[i].Some? then [Field(keys[i], texts[i].value)] else []
  {
    if |keys| == 0 then []
    else
      var first := if texts[0].Some? then [Field(keys[0], texts[0].value)] else [];
      [first] + Parts(keys[1..], texts[1..])
  }
}
