/**
 * The texts that addresses, selectors, topics and calldata words are written in, and how
 * starknet.js reads them. Two spellings of one felt are different texts with equal felts.
 */
module Texts {
  import opened Wrappers

  /**
   * Blank is '', Bare0x is '0x'. `pad` counts leading zeros and `caps` tells which digits
   * are upper case. Name is any text that is not a whole number.
   */
  datatype Text =
    | Blank
    | Bare0x
    | Hex(value: nat, pad: nat, caps: nat)
    | Decimal(value: nat, pad: nat)
    | Name(name: string)

  /** Addresses are below 2^251. */
  const ADDRESS_BOUND: nat := 0x800000000000000000000000000000000000000000000000000000000000000

  /** The Starknet hash of a text, masked to 250 bits; None is hashing null. */
  type Keccak = Option<Text> -> nat

  /** `BigInt(text)`; None is a thrown SyntaxError or TypeError (for null). */
  function BigInt(t: Option<Text>): Option<nat> {
    match t
    case Some(Hex(v, _, _)) => Some(v)
    case Some(Decimal(v, _)) => Some(v)
    case Some(Blank) => Some(0)
    case _ => None
  }

  /** The felt an address or selector text stands for; None is a thrown error. */
  function FeltOf(t: Option<Text>): Option<nat> {
    var v := BigInt(t);
    if v.Some? && v.value < ADDRESS_BOUND then v else None
  }

  /** `hexEq`: both texts read as the same felt; unreadable texts equal nothing. */
  predicate HexEq(a: Option<Text>, b: Option<Text>) {
    FeltOf(a).Some? && FeltOf(a) == FeltOf(b)
  }

  /** `num.isHex` */
  predicate IsHex(t: Text) { t.Hex? || t.Bare0x? }

  /** `encodeSelectorToHex`: hex stays as it is, decimals are respelled, names are hashed. */
  function SelectorHex(keccak: Keccak, t: Text): Text {
    match t
    case Hex(_, _, _) => t
    case Bare0x => t
    case Decimal(v, _) => Hex(v, 0, 0)
    case _ => Hex(keccak(Some(t)), 0, 0)
  }

  /** `encodeEventKey`: always hashes, even texts that are already felts. */
  function EventKey(keccak: Keccak, t: Option<Text>): Text {
    Hex(keccak(t), 0, 0)
  }

  /** Present and not the empty text. */
  predicate Truthy(t: Option<Text>) { t.Some? && !t.value.Blank? }

  /** `toLowerCase` */
  function Lower(t: Text): Text {
    match t
    case Hex(v, pad, _) => Hex(v, pad, 0)
    case Name(s) => Name(LowerString(s))
    case _ => t
  }

  function LowerString(s: string): string {
    seq(|s|, i requires 0 <= i < |s| => if 'A' <= s[i] <= 'Z' then s[i] - 'A' + 'a' else s[i])
  }

  /** Lower case keeps the number, and makes texts equal that differ in case only. */
  lemma LowerForgetsCase(t: Text, u: Text)
    ensures BigInt(Some(Lower(t))) == BigInt(Some(t)) && Lower(Lower(t)) == Lower(t)
    ensures t.Hex? && u.Hex? && t.value == u.value && t.pad == u.pad ==> Lower(t) == Lower(u)
    ensures t.Name? ==>
      && Lower(t).Name? && |Lower(t).name| == |t.name|
      && forall i :: 0 <= i < |t.name| ==>
           && !('A' <= Lower(t).name[i] <= 'Z')
           && (Lower(t).name[i] == t.name[i]
               || ('A' <= t.name[i] <= 'Z' && Lower(t).name[i] as int == t.name[i] as int + 32))
  {
    if t.Name? {
      assert LowerString(LowerString(t.name)) == LowerString(t.name);
    }
  }

  /** A filter field that may be left out, be null, or hold a text. */
  datatype Field = Undefined | Null | Given(text: Text)

  /** Two number texts for the same value, whatever their padding, case or base. */
  predicate Respelled(t: Text, u: Text) {
    (t.Hex? || t.Decimal?) && (u.Hex? || u.Decimal?) && t.value == u.value
  }

  /** The text is a way to write the number; the empty text is read as 0. */
  predicate Spells(t: Option<Text>, v: nat) {
    match t
    case Some(Hex(w, _, _)) => v == w
    case Some(Decimal(w, _)) => v == w
    case Some(Blank) => v == 0
    case _ => false
  }

  /** Two texts are equal exactly when both write the same number below 2^251. */
  lemma HexEqIff(a: Option<Text>, b: Option<Text>)
    ensures HexEq(a, b) <==> exists v: nat :: Spells(a, v) && Spells(b, v) && v < ADDRESS_BOUND
  {
    if HexEq(a, b) {
      assert Spells(a, FeltOf(a).value) && Spells(b, FeltOf(a).value);
    }
  }

  /** Equality of felts is a partial equivalence: reflexive only on readable texts. */
  lemma HexEqPartialEquivalence(a: Option<Text>, b: Option<Text>, c: Option<Text>)
    ensures HexEq(a, b) ==> HexEq(b, a) && HexEq(a, a)
    ensures HexEq(a, b) && HexEq(b, c) ==> HexEq(a, c)
    ensures a.Some? ==> FeltOf(Some(Lower(a.value))) == FeltOf(a)
  {
  }
}
