/**
 Extent recovery: the Detect functions of include/protocache/access.h and
 those that tools/protoc-gen-pccx.cc generates for messages.  An extent is
 given by its end; 0 stands for the empty slice.
 */
module Detector {
  import opened Words
  import opened Swar
  import opened Schema
  import opened Messages
  import opened Decode
  import opened MapFinder

  /** String::Detect. */
  function StringEnd(words: seq<u32>, at: nat): nat {
    match ParseBytes(words, Loc(at, |words|))
    case None => 0
    case Some((off, len)) => (off + len + 3) / 4
  }

  /** Array::Detect: header and cells. */
  function ArrayEnd(words: seq<u32>, at: nat): nat {
    if at >= |words| || words[at] % 4 == 0 then 0
    else
      var tail := at + 1 + Prod(words[at] % 4, words[at] / 4);
      if tail > |words| then 0 else tail
  }

  /** Map::Detect: index and cells. */
  function MapEnd(words: seq<u32>, at: nat): nat {
    match OpenMap(words, at, KString, KString)
    case None => 0
    case Some(info) => info.body + Prod(info.keyWidth + info.valueWidth, info.count)
  }

  /** `sec << 14` in 64 bits: the widths of a section without its base. */
  function DropBase(sec: nat): nat { sec % TWO50 * 0x4000 }

  /** Message::Detect: header and field cells. */
  function MessageEnd(words: seq<u32>, at: nat): nat {
    if !HeaderInside(words, at) then 0
    else
      var section := words[at] % 256;
      var tail: int := BodyStart(words, at) +
                  if section == 0 then Count32(words[at])
                  else
                    var sec := SectionWord(words, at, section - 1);
                    Count64(DropBase(sec)) + sec / TWO50;
      if tail < 0 || tail > |words| then 0 else tail
  }

  function Left(n: nat, at: nat): nat { if at >= n then 0 else n - at }

  lemma GetFieldAfter(words: seq<u32>, at: nat, id: nat)
    requires HeaderInside(words, at)
    ensures var r := GetField(words, at, id); r.Some? ==> r.value.0 > at && r.value.0 < |words|
  {
    hide GetField, Scan;
    RandomAccessIsScan(words, at, id);
    ScanIds(words, at, id);
  }

  lemma BodyAfter(words: seq<u32>, key: Kind, value: Kind, at: nat)
    requires at < |words|
    ensures MapInfo(words, key, value, at).body > at
  {
  }

  /** Detect of a string, byte array or complex value at index `at`. */
  function DetectObject(words: seq<u32>, types: Types, kind: Kind, tid: nat, at: nat): nat
    decreases Left(|words|, at), 1, 0
  {
    if IsBytes(kind) then StringEnd(words, at)
    else if tid >= |types| || at >= |words| then 0
    else
      match types[tid]
      case MessageType(fields, _) =>
        var view := MessageEnd(words, at);
        if view == 0 || !HeaderInside(words, at) then 0 else DetectFields(words, types, fields, at, |fields|, view)
      case ArrayType(value, child) =>
        if value.KBool? then StringEnd(words, at)
        else if IsScalar(value) || ArrayEnd(words, at) == 0 then ArrayEnd(words, at)
        else DetectCells(words, types, value, child, at + 1, words[at] % 4, words[at] / 4, ArrayEnd(words, at))
      case MapType(key, value, child) =>
        var view := MapEnd(words, at);
        if view == 0 || (!key.KString? && IsScalar(value)) then view
        else
          var info := MapInfo(words, key, value, at);
          BodyAfter(words, key, value, at);
          DetectPairs(words, types, child, info, info.count, view)
  }

  /** Detect of the object a cell stands for. */
  function DetectCell(words: seq<u32>, types: Types, kind: Kind, tid: nat, cell: nat): nat
    decreases Left(|words|, cell), 2, 0
  {
    match GetObject(words, cell)
    case None => 0
    case Some(p) => DetectObject(words, types, kind, tid, p)
  }

  /** The loop of ArrayT::Detect over the first `count` cells, from the last. */
  function DetectCells(words: seq<u32>, types: Types, kind: Kind, tid: nat, body: nat, width: nat, count: nat,
                       view: nat): nat
    decreases Left(|words|, body), 3, count
  {
    if count == 0 then view
    else
      var t := DetectCell(words, types, kind, tid, body + Prod(width, count - 1));
      if t > view then t else DetectCells(words, types, kind, tid, body, width, count - 1, view)
  }

  /** The loop of MapT::Detect over the first `count` pairs, from the last; value before key. */
  function DetectPairs(words: seq<u32>, types: Types, child: nat, info: MapHeadInfo, count: nat, view: nat): nat
    decreases Left(|words|, info.body), 3, count
  {
    if count == 0 then view
    else
      var key := info.body + Prod(info.keyWidth + info.valueWidth, count - 1);
      var v := if IsScalar(info.value) then 0 else DetectCell(words, types, info.value, child, key + info.keyWidth);
      if v > view then v
      else
        var k := if info.key.KString? then DetectCell(words, types, KString, 0, key) else 0;
        if k > view then k else DetectPairs(words, types, child, info, count - 1, view)
  }

  /** The generated code over the first `count` fields, from the last; scalar fields are passed over. */
  function DetectFields(words: seq<u32>, types: Types, fields: seq<FieldPlan>, at: nat, count: nat, view: nat): nat
    requires HeaderInside(words, at) && count <= |fields|
    decreases Left(|words|, at), 0, count
  {
    if count == 0 then view
    else
      var t := DetectField(words, types, fields[count - 1], at);
      if t > view then t else DetectFields(words, types, fields, at, count - 1, view)
  }

  function DetectField(words: seq<u32>, types: Types, field: FieldPlan, at: nat): nat
    requires HeaderInside(words, at)
    decreases Left(|words|, at), 0, 0
  {
    if IsScalar(field.kind) then 0
    else
      match GetField(words, at, field.id)
      case None => 0
      case Some((cell, _)) =>
        GetFieldAfter(words, at, field.id);
        DetectCell(words, types, field.kind, field.child, cell)
  }

  // ---------------------------------------------------------------------
  // The loops
  // ---------------------------------------------------------------------

  /** Detect as the readers run it: every loop goes from the back and stops at the first object beyond the cells. */
  method Detect(words: seq<u32>, types: Types, kind: Kind, tid: nat, at: nat) returns (end: nat)
    ensures end == DetectObject(words, types, kind, tid, at)
    decreases Left(|words|, at), 1, 0
  {
    hide StringEnd, MessageEnd, MapEnd, ArrayEnd, DetectCells, DetectPairs, DetectFields, MapInfo;
    if IsBytes(kind) { return StringEnd(words, at); }
    if tid >= |types| || at >= |words| { return 0; }
    match types[tid]
    case MessageType(fields, _) =>
      var view := MessageEnd(words, at);
      if view == 0 || !HeaderInside(words, at) { return 0; }
      end := ScanFields(words, types, fields, at, view);
    case ArrayType(value, child) =>
      if value.KBool? { return StringEnd(words, at); }
      var view := ArrayEnd(words, at);
      if IsScalar(value) || view == 0 { return view; }
      end := ScanCells(words, types, value, child, at + 1, words[at] % 4, words[at] / 4, view);
    case MapType(key, value, child) =>
      var view := MapEnd(words, at);
      if view == 0 || (!key.KString? && IsScalar(value)) { return view; }
      BodyAfter(words, key, value, at);
      end := ScanPairs(words, types, child, MapInfo(words, key, value, at), view);
  }

  method DetectObjectOf(words: seq<u32>, types: Types, kind: Kind, tid: nat, cell: nat) returns (end: nat)
    ensures end == DetectCell(words, types, kind, tid, cell)
    decreases Left(|words|, cell), 2, 0
  {
    var p := GetObject(words, cell);
    if p.None? { return 0; }
    end := Detect(words, types, kind, tid, p.value);
  }

  /** ArrayT::Detect. */
  method ScanCells(words: seq<u32>, types: Types, kind: Kind, tid: nat, body: nat, width: nat, count: nat, view: nat)
    returns (end: nat)
    ensures end == DetectCells(words, types, kind, tid, body, width, count, view)
    decreases Left(|words|, body), 3, 0
  {
    hide DetectCell, Prod;
    var i := count;
    while i > 0
      invariant 0 <= i <= count
      invariant DetectCells(words, types, kind, tid, body, width, count, view) == DetectCells(words, types, kind, tid,
            body, width, i, view)
    {
      i := i - 1;
      var t := DetectObjectOf(words, types, kind, tid, body + Prod(width, i));
      if t > view { return t; }
    }
    return view;
  }

  /** MapT::Detect. */
  method ScanPairs(words: seq<u32>, types: Types, child: nat, info: MapHeadInfo, view: nat) returns (end: nat)
    ensures end == DetectPairs(words, types, child, info, info.count, view)
    decreases Left(|words|, info.body), 3, 0
  {
    hide DetectCell, Prod;
    var i := info.count;
    while i > 0
      invariant 0 <= i <= info.count
      invariant DetectPairs(words, types, child, info, info.count, view)
                == DetectPairs(words, types, child, info, i, view)
    {
      i := i - 1;
      var key := info.body + Prod(info.keyWidth + info.valueWidth, i);
      if !IsScalar(info.value) {
        var v := DetectObjectOf(words, types, info.value, child, key + info.keyWidth);
        if v > view { return v; }
      }
      if info.key.KString? {
        var k := DetectObjectOf(words, types, KString, 0, key);
        if k > view { return k; }
      }
    }
    return view;
  }

  /** The generated Detect of a message. */
  method ScanFields(words: seq<u32>, types: Types, fields: seq<FieldPlan>, at: nat, view: nat) returns (end: nat)
    requires HeaderInside(words, at)
    ensures end == DetectFields(words, types, fields, at, |fields|, view)
    decreases Left(|words|, at), 0, 0
  {
    hide DetectCell, GetField;
    var i := |fields|;
    while i > 0
      invariant 0 <= i <= |fields|
      invariant DetectFields(words, types, fields, at, |fields|, view)
                == DetectFields(words, types, fields, at, i, view)
    {
      i := i - 1;
      var field := fields[i];
      if !IsScalar(field.kind) {
        GetFieldAfter(words, at, field.id);
        var cell := GetField(words, at, field.id);
        if cell.Some? {
          var t := DetectObjectOf(words, types, field.kind, field.child, cell.value.0);
          if t > view { return t; }
        }
      }
    }
    return view;
  }
}
