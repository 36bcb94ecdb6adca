/** The three control signals of the walker and the two ways the library turns a
    loosely typed visitor result into one of them (src/index.ts:43-58). */
module Signals {

  /** A JavaScript value as a visitor may return it. Only the distinctions the
      library observes are kept: its type, and for numbers and strings the value. */
  datatype JsValue =
    | Undefined
    | Null
    | Bool(b: bool)
    | Num(n: real)
    | NaN
    | Str(s: string)
    | Obj

  /** ToBoolean of section 7.1.2 of ECMA-262: what `!v` negates. */
  predicate Truthy(v: JsValue) {
    match v
    case Undefined => false
    case Null => false
    case Bool(b) => b
    case Num(n) => n != 0.0
    case NaN => false
    case Str(s) => |s| > 0
    case Obj => true
  }

  /** `enum TReturn { Skip = -1, Normal = 0, Break = 1 }` */
  datatype TReturn = Skip | Normal | Break

  /** The numeric value an enum member has at run time; the inverse of both
      classifications below on the three enum values. */
  function ToJs(t: TReturn): (v: JsValue)
    ensures NormalizeTReturn(v) == t
    ensures IsTBreak(v) <==> t == Break
    ensures v == Num(-1.0) <==> t == Skip
  {
    match t
    case Skip => Num(-1.0)
    case Normal => Num(0.0)
    case Break => Num(1.0)
  }

  /** `isTBreak`: the strict-equality test the walkers use to decide an abort. */
  predicate IsTBreak(v: JsValue)
    ensures IsTBreak(v) ==> v != Num(-1.0) && v != Num(0.0) && v != Bool(true)
  {
    v == Num(1.0) || v == Null || v == Bool(false)
  }

  /** `normalizeTReturn`: falsiness is checked first, so every falsy value, null
      and false included, continues the walk; -1 skips; anything else breaks. */
  function NormalizeTReturn(v: JsValue): (t: TReturn)
    ensures t == Normal <==> v in {Undefined, Null, Bool(false), Num(0.0), NaN, Str("")}
    ensures t == Skip <==> v == Num(-1.0)
    ensures t == Break <==> Truthy(v) && v != Num(-1.0)
  {
    if !Truthy(v) then Normal
    else if v == Num(-1.0) then Skip
    else Break
  }

  /** The two classifications agree on the enum values but not in general:
      null and false abort a walk yet normalize to Normal, while truthy values
      other than 1 and -1 normalize to Break yet do not abort a walk. */
  lemma ClassificationsDisagree(v: JsValue)
    ensures IsTBreak(v) && NormalizeTReturn(v) != Break <==> v == Null || v == Bool(false)
    ensures !IsTBreak(v) && NormalizeTReturn(v) == Break
        <==> Truthy(v) && v != Num(-1.0) && v != Num(1.0)
    ensures IsTBreak(v) ==> v != Num(-1.0)
  {
  }
}
