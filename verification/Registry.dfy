/**
 Registration of decode plans (pc_decode_schema_reserve and CommitPlan of
 typescript/wasm/decode_tape.cc): a type is reserved by its kind, so that types
 may refer to each other, and later committed once from the words of its plan.
 */
module Registry {
  import opened Words
  import opened Schema

  const NoType: u32 := 0xffff_ffff

  const MaxFields: nat := 6387

  /** The kind with this code (ValidValueKind). */
  function KindOfCode(code: nat): (r: Option<Kind>)
    ensures r.Some? ==> Code(r.value) == code
    ensures forall k: Kind :: Code(k) == code ==> r == Some(k)
  {
    match code
    case 1 => Some(KMessage)
    case 2 => Some(KBytes)
    case 3 => Some(KString)
    case 4 => Some(KF64)
    case 5 => Some(KF32)
    case 6 => Some(KU64)
    case 7 => Some(KU32)
    case 8 => Some(KI64)
    case 9 => Some(KI32)
    case 10 => Some(KBool)
    case 11 => Some(KEnum)
    case 20 => Some(KArray)
    case 21 => Some(KMap)
    case _ => None
  }

  /** A registered type: its kind only, or its whole plan. */
  datatype Entry = Reserved(kind: Kind) | Committed(plan: TypePlan)

  function EntryKind(e: Entry): Kind {
    match e
    case Reserved(kind) => kind
    case Committed(plan) => KindOf(plan)
  }

  /** The child is registered with the announced kind, committed or not. */
  predicate ChildKnown(entries: seq<Entry>, kind: Kind, child: nat) {
    IsComplex(kind) ==> child < |entries| && EntryKind(entries[child]) == kind
  }

  /** The word that refers to a child: its handle, or no type. */
  predicate ChildWord(word: u32, kind: Kind, child: nat) {
    if IsComplex(kind) then word == child + 1 && word != NoType else word == NoType && child == 0
  }

  predicate FieldWords(words: seq<u32>, i: nat, f: FieldPlan)
    requires 7 + 3 * i <= |words|
  {
    words[4 + 3 * i] == f.id && words[5 + 3 * i] == Code(f.kind) && ChildWord(words[6 + 3 * i], f.kind, f.child)
  }

  /** The index covers the ids of the fields and no larger one; ids without a field hold -1. */
  ghost predicate Tight(fields: seq<FieldPlan>, indexById: seq<int>) {
    && Indexed(fields, indexById) && (forall id | 0 <= id < |indexById| :: indexById[id] >= -1)
    && (indexById != [] ==> indexById[|indexById| - 1] >= 0)
  }

  /** The words describe the plan: kind, counts or kinds, length of the record, child, then three words a field. */
  ghost predicate Describes(words: seq<u32>, plan: TypePlan) {
    && |words| >= 4 && words[0] == Code(KindOf(plan)) && words[2] == |words|
    && match plan
       case MessageType(fields, _) =>
         words[1] == |fields| && |words| == 4 + 3 * |fields| && forall i | 0 <= i < |fields| ::
           FieldWords(words, i, fields[i])
       case ArrayType(value, child) => |words| == 4 && words[1] == Code(value) && ChildWord(words[3], value, child)
       case MapType(key, value, child) =>
         |words| == 4 && words[1] % 256 == Code(key) && words[1] / 256 % 256 == Code(value)
             && ChildWord(words[3], value, child)
  }

  /** What every committed plan satisfies among the registered types. */
  ghost predicate PlanOk(entries: seq<Entry>, plan: TypePlan) {
    match plan
    case MessageType(fields, indexById) =>
      && |fields| <= MaxFields && Tight(fields, indexById)
      && forall i | 0 <= i < |fields| ::
           fields[i].id < MaxFields && ChildKnown(entries, fields[i].kind, fields[i].child)
    case ArrayType(value, child) => ChildKnown(entries, value, child)
    case MapType(key, value, child) => ValidKey(key) && ChildKnown(entries, value, child)
  }

  /** A reserved type may be committed as `plan` by these words. */
  ghost predicate Accepts(entries: seq<Entry>, handle: nat, words: seq<u32>, plan: TypePlan) {
    && 0 < handle <= |entries| && entries[handle - 1] == Reserved(KindOf(plan))
    && Describes(words, plan) && PlanOk(entries, plan)
  }

  // ---------------------------------------------------------------------
  // The words determine the plan
  // ---------------------------------------------------------------------

  lemma OneField(words: seq<u32>, i: nat, f: FieldPlan, g: FieldPlan)
    requires 7 + 3 * i <= |words| && FieldWords(words, i, f) && FieldWords(words, i, g)
    ensures f == g
  {
    assert KindOfCode(words[5 + 3 * i]) == Some(f.kind) == Some(g.kind);
  }

  lemma OneIndex(fields: seq<FieldPlan>, a: seq<int>, b: seq<int>)
    requires Tight(fields, a) && Tight(fields, b)
    ensures a == b
  {
    forall id | 0 <= id < |a| && id < |b| ensures a[id] == b[id] {
      if a[id] >= 0 { assert fields[a[id]].id == id; }
      if b[id] >= 0 { assert fields[b[id]].id == id; }
    }
    if a != [] { assert fields[a[|a| - 1]].id == |a| - 1; }
    if b != [] { assert fields[b[|b| - 1]].id == |b| - 1; }
  }

  /** At most one plan can be committed from given words. */
  lemma OnePlan(entries: seq<Entry>, handle: nat, words: seq<u32>, p: TypePlan, q: TypePlan)
    requires Accepts(entries, handle, words, p) && Accepts(entries, handle, words, q)
    ensures p == q
  {
    hide Describes, Tight, Sized, ChildrenKnown, PlanOk;
    PlanParts(entries, p);
    PlanParts(entries, q);
    SamePlan(words, p, q);
  }

  lemma SamePlan(words: seq<u32>, p: TypePlan, q: TypePlan)
    requires Describes(words, p) && Sized(p) && Describes(words, q) && Sized(q)
    ensures p == q
  {
    hide FieldWords, Tight;
    assert KindOfCode(words[0]) == Some(KindOf(p)) == Some(KindOf(q));
    match p
    case MessageType(fields, index) =>
      forall i | 0 <= i < |fields| ensures fields[i] == q.fields[i] {
        OneField(words, i, fields[i], q.fields[i]);
      }
      assert fields == q.fields;
      OneIndex(fields, index, q.indexById);
    case ArrayType(value, _) => assert KindOfCode(words[1]) == Some(value) == Some(q.value);
    case MapType(key, value, _) =>
      assert KindOfCode(words[1] % 256) == Some(key) == Some(q.key);
      assert KindOfCode(words[1] / 256 % 256) == Some(value) == Some(q.value);
  }

  // ---------------------------------------------------------------------
  // Parts of CommitPlan
  // ---------------------------------------------------------------------

  /** `IsComplex(kind) == (child != kNoType)`, as an index of the registered types. */
  function ChildOfWord(word: u32, kind: Kind): (r: Option<nat>)
    ensures r.Some? && (IsComplex(kind) ==> word > 0) ==> ChildWord(word, kind, r.value)
    ensures forall child: nat :: ChildWord(word, kind, child) ==> r == Some(child)
  {
    if IsComplex(kind) != (word != NoType) then None
    else Some(if IsComplex(kind) && word > 0 then word - 1 else 0)
  }

  /** One record of the field loop; handle 0, which validate_child refuses, is refused here already. */
  function FieldAt(words: seq<u32>, i: nat): (r: Option<FieldPlan>)
    requires 7 + 3 * i <= |words|
  {
    var kind := KindOfCode(words[5 + 3 * i]);
    if words[4 + 3 * i] >= MaxFields || kind.None? then None
    else
      var child := ChildOfWord(words[6 + 3 * i], kind.value);
      if child.None? || (IsComplex(kind.value) && words[6 + 3 * i] == 0) then None
      else Some(FieldPlan(words[4 + 3 * i], kind.value, child.value))
  }

  lemma FieldAtExactly(words: seq<u32>, i: nat)
    requires 7 + 3 * i <= |words|
    ensures forall f: FieldPlan :: FieldAt(words, i) == Some(f) <==> FieldWords(words, i, f) && f.id < MaxFields
  {
    forall f: FieldPlan ensures FieldAt(words, i) == Some(f) <==> FieldWords(words, i, f) && f.id < MaxFields {
      if FieldWords(words, i, f) { assert KindOfCode(words[5 + 3 * i]) == Some(f.kind); }
    }
  }

  /** The loop that reads the fields. */
  method ReadFields(words: seq<u32>, count: nat) returns (r: Option<seq<FieldPlan>>)
    requires |words| == 4 + 3 * count
    ensures r.Some? ==> |r.value| == count && forall i | 0 <= i < count ::
              FieldWords(words, i, r.value[i]) && r.value[i].id < MaxFields
    ensures r.None? ==> exists i :: 0 <= i < count && FieldAt(words, i) == None
  {
    hide FieldAt, FieldWords;
    var fields: seq<FieldPlan> := [];
    while |fields| < count
      invariant |fields| <= count
      invariant forall i | 0 <= i < |fields| :: FieldWords(words, i, fields[i]) && fields[i].id < MaxFields
    {
      var f := FieldAt(words, |fields|);
      FieldAtExactly(words, |fields|);
      if f.None? { return None; }
      fields := fields + [f.value];
    }
    return Some(fields);
  }

  ghost predicate DistinctFields(fields: seq<FieldPlan>) {
    forall i, k | 0 <= i < k < |fields| :: fields[i].id != fields[k].id
  }

  /** `max(field.id)` over the fields, as the loop keeps it. */
  method LargestId(fields: seq<FieldPlan>) returns (largest: nat)
    ensures forall i | 0 <= i < |fields| :: fields[i].id <= largest
    ensures fields != [] ==> exists i :: 0 <= i < |fields| && fields[i].id == largest
  {
    largest := 0;
    var i := 0;
    while i < |fields|
      invariant 0 <= i <= |fields| && forall k | 0 <= k < i :: fields[k].id <= largest
      invariant i == 0 ==> largest == 0
      invariant i > 0 ==> exists k :: 0 <= k < i && fields[k].id == largest
    {
      if fields[i].id > largest || i == 0 { largest := fields[i].id; }
      i := i + 1;
    }
  }

  /** The loop that fills `field_index_by_id`: it fails exactly when an id repeats. */
  method IndexFields(fields: seq<FieldPlan>) returns (r: Option<seq<int>>)
    ensures r.Some? ==> Tight(fields, r.value)
    ensures r.None? <==> !DistinctFields(fields)
  {
    if |fields| == 0 { return Some([]); }
    var largest := LargestId(fields);
    var index := new int[largest + 1](_ => -1);
    var i := 0;
    while i < |fields|
      invariant 0 <= i <= |fields|
      invariant forall k | 0 <= k < i :: index[fields[k].id] == k
      invariant forall id | 0 <= id < index.Length :: -1 <= index[id] < i
      invariant forall id | 0 <= id < index.Length && index[id] >= 0 :: fields[index[id]].id == id
      invariant forall j, k | 0 <= j < k < i :: fields[j].id != fields[k].id
    {
      var id := fields[i].id;
      if index[id] != -1 { return None; }
      index[id] := i;
      i := i + 1;
    }
    return Some(index[..]);
  }

  lemma TightDistinct(fields: seq<FieldPlan>, indexById: seq<int>)
    requires Tight(fields, indexById)
    ensures DistinctFields(fields)
  {
  }

  /** The words after the kind are read into a plan, or no plan is described by them. */
  method ReadPlan(kind: Kind, words: seq<u32>) returns (r: Option<TypePlan>)
    requires |words| >= 4 && words[0] == Code(kind) && words[2] == |words|
    ensures r.Some? ==> KindOf(r.value) == kind && Describes(words, r.value) && Sized(r.value)
    ensures r.None? ==> forall plan: TypePlan :: Describes(words, plan) ==> !Sized(plan)
  {
    hide FieldWords, Tight, DistinctFields, FieldAt;
    KindOfWord(words, kind);
    match kind
    case KMessage =>
      r := ReadMessage(words);
    case KArray =>
      r := None;
      var value := KindOfCode(words[1]);
      if |words| != 4 || value.None? { return; }
      var child := ChildOfWord(words[3], value.value);
      if child.None? || (IsComplex(value.value) && words[3] == 0) { return; }
      r := Some(ArrayType(value.value, child.value));
    case KMap =>
      r := None;
      var key, value := KindOfCode(words[1] % 256), KindOfCode(words[1] / 256 % 256);
      if |words| != 4 || key.None? || !ValidKey(key.value) || value.None? { return; }
      var child := ChildOfWord(words[3], value.value);
      if child.None? || (IsComplex(value.value) && words[3] == 0) { return; }
      r := Some(MapType(key.value, value.value, child.value));
    case _ =>
      r := None;
  }

  /** A described plan has the kind of its first word. */
  lemma KindOfWord(words: seq<u32>, kind: Kind)
    requires |words| >= 4 && words[0] == Code(kind)
    ensures forall plan: TypePlan :: Describes(words, plan) ==> KindOf(plan) == kind
  {
    forall plan: TypePlan | Describes(words, plan) ensures KindOf(plan) == kind {
      assert KindOfCode(words[0]) == Some(kind) == Some(KindOf(plan));
    }
  }

  method ReadMessage(words: seq<u32>) returns (r: Option<TypePlan>)
    requires |words| >= 4 && words[0] == Code(KMessage) && words[2] == |words|
    ensures r.Some? ==> r.value.MessageType? && Describes(words, r.value) && Sized(r.value)
    ensures r.None? ==> forall plan: TypePlan :: plan.MessageType? && Describes(words, plan) ==> !Sized(plan)
  {
    hide FieldWords, Tight, DistinctFields, FieldAt;
    var count := words[1];
    if |words| != (4 + count * 3) % 0x1_0000_0000 || count > MaxFields { return None; }
    var fields := ReadFields(words, count);
    if fields.None? {
      forall plan: TypePlan | plan.MessageType? && Describes(words, plan)
        ensures !Sized(plan)
      {
        BadField(words, plan, count);
      }
      return None;
    }
    var index := IndexFields(fields.value);
    if index.None? {
      forall plan: TypePlan | plan.MessageType? && Describes(words, plan)
        ensures !Sized(plan)
      {
        TwiceUsed(words, plan, fields.value);
      }
      return None;
    }
    return Some(MessageType(fields.value, index.value));
  }

  /** What a plan satisfies whatever types are registered. */
  ghost predicate Sized(plan: TypePlan) {
    match plan
    case MessageType(fields, indexById) => |fields| <= MaxFields && Tight(fields, indexById)
                                           && forall i | 0 <= i < |fields| :: fields[i].id < MaxFields
    case ArrayType(_, _) => true
    case MapType(key, _, _) => ValidKey(key)
  }

  lemma BadField(words: seq<u32>, plan: TypePlan, count: nat)
    requires plan.MessageType? && Describes(words, plan) && count == |plan.fields|
    requires exists i :: 0 <= i < count && 7 + 3 * i <= |words| && FieldAt(words, i) == None
    ensures !Sized(plan)
  {
    hide FieldAt, FieldWords, Tight;
    var i :| 0 <= i < count && 7 + 3 * i <= |words| && FieldAt(words, i) == None;
    FieldAtExactly(words, i);
    assert FieldAt(words, i) != Some(plan.fields[i]);
  }

  lemma TwiceUsed(words: seq<u32>, plan: TypePlan, fields: seq<FieldPlan>)
    requires plan.MessageType? && Describes(words, plan) && |fields| == |plan.fields| && !DistinctFields(fields)
    requires forall i | 0 <= i < |fields| :: FieldWords(words, i, fields[i])
    ensures !Sized(plan)
  {
    hide FieldWords, Tight, DistinctFields;
    forall i | 0 <= i < |fields| ensures fields[i] == plan.fields[i] { OneField(words, i, fields[i], plan.fields[i]); }
    assert fields == plan.fields;
    if Tight(plan.fields, plan.indexById) { TightDistinct(plan.fields, plan.indexById); }
  }

  /** The children of a plan (`validate_child`). */
  ghost predicate ChildrenKnown(entries: seq<Entry>, plan: TypePlan) {
    match plan
    case MessageType(fields, _) => forall i | 0 <= i < |fields| :: ChildKnown(entries, fields[i].kind, fields[i].child)
    case ArrayType(value, child) => ChildKnown(entries, value, child)
    case MapType(_, value, child) => ChildKnown(entries, value, child)
  }

  method ValidateChildren(entries: seq<Entry>, plan: TypePlan) returns (ok: bool)
    ensures ok <==> ChildrenKnown(entries, plan)
  {
    match plan
    case MessageType(fields, _) =>
      var i := 0;
      while i < |fields|
        invariant 0 <= i <= |fields| && forall k | 0 <= k < i :: ChildKnown(entries, fields[k].kind, fields[k].child)
      {
        if !ChildKnown(entries, fields[i].kind, fields[i].child) { return false; }
        i := i + 1;
      }
      ok := true;
    case ArrayType(value, child) => ok := ChildKnown(entries, value, child);
    case MapType(_, value, child) => ok := ChildKnown(entries, value, child);
  }

  lemma PlanParts(entries: seq<Entry>, plan: TypePlan)
    ensures PlanOk(entries, plan) <==> Sized(plan) && ChildrenKnown(entries, plan)
  {
    hide Tight, ChildKnown;
  }

  // ---------------------------------------------------------------------
  // The registry
  // ---------------------------------------------------------------------

  /** Every committed plan is sound. */
  ghost predicate Sound(entries: seq<Entry>) {
    forall t | 0 <= t < |entries| :: entries[t].Committed? ==> PlanOk(entries, entries[t].plan)
  }

  /** Registered types keep their kinds, so that plans stay sound. */
  lemma StaysSound(before: seq<Entry>, after: seq<Entry>, plan: TypePlan)
    requires |before| <= |after| && forall t | 0 <= t < |before| :: EntryKind(after[t]) == EntryKind(before[t])
    requires PlanOk(before, plan)
    ensures PlanOk(after, plan)
  {
    hide Tight, EntryKind;
  }

  class Registry {
    var entries: seq<Entry>

    ghost predicate Valid() reads this { Sound(entries) }

    constructor ()
      ensures Valid() && entries == []
    {
      entries := [];
    }

    /** pc_decode_schema_reserve: a new handle, or 0 for a kind that has no plan. */
    method Reserve(code: u32) returns (handle: nat)
      requires Valid()
      modifies this
      ensures Valid()
      ensures handle == 0 <==> forall k: Kind :: Code(k) == code ==> !IsComplex(k)
      ensures handle == 0 ==> entries == old(entries)
      ensures handle != 0 ==> handle == |entries| && exists k: Kind ::
                Code(k) == code && entries == old(entries) + [Reserved(k)]
    {
      var kind := KindOfCode(code);
      if kind.None? || !IsComplex(kind.value) { return 0; }
      ghost var before := entries;
      entries := entries + [Reserved(kind.value)];
      forall t | 0 <= t < |entries| && entries[t].Committed? ensures PlanOk(entries, entries[t].plan) {
        StaysSound(before, entries, before[t].plan);
      }
      assert Code(kind.value) == code;
      return |entries|;
    }

    /**
     CommitPlan: succeeds exactly when the words describe a sound plan of the
     reserved kind, and then records that plan.
     */
    method Commit(handle: u32, buffer: seq<u32>, length: nat) returns (ok: bool)
      requires Valid()
      modifies this
      ensures Valid()
      ensures !ok ==> entries == old(entries)
      ensures ok ==> exists plan :: && length / 4 <= |buffer|
                                    && Accepts(old(entries), handle, buffer[..length / 4], plan)
                                    && entries == old(entries)[handle - 1 := Committed(plan)]
      ensures ok <==> length % 4 == 0 && length <= 4 * |buffer|
                      && exists plan :: Accepts(old(entries), handle, buffer[..length / 4], plan)
    {
      hide Describes, PlanOk, Sized, ChildrenKnown;
      if length < 16 || length % 4 != 0 || length > 4 * |buffer| {
        if length % 4 == 0 && length <= 4 * |buffer| { TooShort(buffer[..length / 4]); }
        return false;
      }
      var words := buffer[..length / 4];
      if handle == 0 || handle > |entries| { return false; }
      WordsMatch(words);
      if words[2] != |words| { return false; }
      if !entries[handle - 1].Reserved? || Code(entries[handle - 1].kind) != words[0] { return false; }
      ghost var before := entries;
      var kind := entries[handle - 1].kind;
      var plan := ReadPlan(kind, words);
      if plan.None? {
        forall p: TypePlan ensures !Accepts(before, handle, words, p) { PlanParts(before, p); }
        return false;
      }
      ok := ValidateChildren(entries, plan.value);
      PlanParts(before, plan.value);
      if !ok {
        forall p: TypePlan ensures !Accepts(before, handle, words, p) { Refuted(before, handle, words, plan.value, p); }
        return;
      }
      entries := entries[handle - 1 := Committed(plan.value)];
      assert Accepts(before, handle, words, plan.value);
      CommittedSound(before, handle, plan.value);
    }
  }

  lemma TooShort(words: seq<u32>)
    requires |words| < 4
    ensures forall plan: TypePlan :: !Describes(words, plan)
  {
  }

  lemma WordsMatch(words: seq<u32>)
    requires |words| >= 4
    ensures forall plan: TypePlan :: Describes(words, plan) ==> words[2] == |words| && words[0] == Code(KindOf(plan))
  {
  }

  lemma Refuted(entries: seq<Entry>, handle: nat, words: seq<u32>, plan: TypePlan, other: TypePlan)
    requires Describes(words, plan) && Sized(plan) && !ChildrenKnown(entries, plan)
    ensures !Accepts(entries, handle, words, other)
  {
    hide Describes, Sized, ChildrenKnown, PlanOk;
    PlanParts(entries, other);
    if Describes(words, other) && Sized(other) { SamePlan(words, plan, other); }
  }

  lemma CommittedSound(before: seq<Entry>, handle: nat, plan: TypePlan)
    requires Sound(before) && 0 < handle <= |before| && before[handle - 1] == Reserved(KindOf(plan))
    requires PlanOk(before, plan)
    ensures Sound(before[handle - 1 := Committed(plan)])
  {
    hide PlanOk;
    var after := before[handle - 1 := Committed(plan)];
    forall t | 0 <= t < |after| && after[t].Committed? ensures PlanOk(after, after[t].plan) {
      StaysSound(before, after, after[t].plan);
    }
  }

  // ---------------------------------------------------------------------
  // What the decoder is given
  // ---------------------------------------------------------------------

  function TypesOf(entries: seq<Entry>): (r: Types)
    requires forall t | 0 <= t < |entries| :: entries[t].Committed?
    ensures |r| == |entries| && forall t | 0 <= t < |r| :: r[t] == entries[t].plan
  {
    seq(|entries|, t requires 0 <= t < |entries| => entries[t].plan)
  }

  /** Once all types are committed, they are what the decoder relies on. */
  lemma CommittedTypesOk(entries: seq<Entry>)
    requires Sound(entries) && |entries| < 0x1000_0000 && forall t | 0 <= t < |entries| :: entries[t].Committed?
    ensures TypesOk(TypesOf(entries))
  {
    var types := TypesOf(entries);
    forall t | 0 <= t < |types| ensures TypeOk(types, types[t]) {
      assert PlanOk(entries, entries[t].plan);
      ChildrenStay(entries, types, types[t]);
    }
  }

  lemma ChildrenStay(entries: seq<Entry>, types: Types, plan: TypePlan)
    requires |types| == |entries| && forall t | 0 <= t < |types| :: entries[t] == Committed(types[t])
    requires PlanOk(entries, plan)
    ensures TypeOk(types, plan)
  {
    hide Indexed;
  }
}
