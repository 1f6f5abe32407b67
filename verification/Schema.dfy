/** Value kinds and decode plans (typescript/wasm/decode_tape.cc). */
module Schema {

  datatype Kind =
    | KMessage | KBytes | KString | KF64 | KF32 | KU64 | KU32 | KI64 | KI32 | KBool | KEnum | KArray | KMap

  function Code(k: Kind): nat {
    match k
    case KMessage => 1
    case KBytes => 2
    case KString => 3
    case KF64 => 4
    case KF32 => 5
    case KU64 => 6
    case KU32 => 7
    case KI64 => 8
    case KI32 => 9
    case KBool => 10
    case KEnum => 11
    case KArray => 20
    case KMap => 21
  }

  predicate IsComplex(k: Kind) { k.KMessage? || k.KArray? || k.KMap? }

  predicate IsBytes(k: Kind) { k.KString? || k.KBytes? }

  predicate IsScalar(k: Kind) { !IsComplex(k) && !IsBytes(k) }

  predicate ValidKey(k: Kind) { k.KString? || k.KU64? || k.KU32? || k.KI64? || k.KI32? }

  /** Words of a scalar; zero for every other kind. */
  function ScalarWidth(k: Kind): nat {
    match k
    case KBool => 1
    case KF32 => 1
    case KU32 => 1
    case KI32 => 1
    case KEnum => 1
    case KF64 => 2
    case KU64 => 2
    case KI64 => 2
    case _ => 0
  }

  datatype FieldPlan = FieldPlan(id: nat, kind: Kind, child: nat)

  /** A committed type; `indexById` maps a field id to its position, or -1. */
  datatype TypePlan =
    | MessageType(fields: seq<FieldPlan>, indexById: seq<int>)
    | ArrayType(value: Kind, child: nat)
    | MapType(key: Kind, value: Kind, child: nat)

  function KindOf(t: TypePlan): Kind {
    match t
    case MessageType(_, _) => KMessage
    case ArrayType(_, _) => KArray
    case MapType(_, _, _) => KMap
  }

  type Types = seq<TypePlan>

  /** A child type exists and has the announced kind; graphs may be cyclic. */
  predicate ChildOk(types: Types, kind: Kind, child: nat) {
    IsComplex(kind) ==> child < |types| && KindOf(types[child]) == kind
  }

  ghost predicate Indexed(fields: seq<FieldPlan>, indexById: seq<int>) {
    && (forall i | 0 <= i < |fields| :: fields[i].id < |indexById| && indexById[fields[i].id] == i)
    && (forall id | 0 <= id < |indexById| && indexById[id] >= 0 ::
          indexById[id] < |fields| && fields[indexById[id]].id == id)
  }

  ghost predicate TypeOk(types: Types, t: TypePlan) {
    match t
    case MessageType(fields, indexById) =>
      && |fields| <= 6387 && Indexed(fields, indexById)
      && forall i | 0 <= i < |fields| :: ChildOk(types, fields[i].kind, fields[i].child)
    case ArrayType(value, child) => ChildOk(types, value, child)
    case MapType(key, value, child) => ValidKey(key) && ChildOk(types, value, child)
  }

  ghost predicate TypesOk(types: Types) {
    |types| < 0x1000_0000 && forall t | 0 <= t < |types| :: TypeOk(types, types[t])
  }
}
