/** How the transaction filter reacts when its fields are respelled or narrowed. */
module FilterLaws {
  import opened Wrappers
  import opened Texts
  import opened Calldata
  import opened CalldataLaws
  import opened Filters

  // ---- spelling ----

  predicate SameOption(a: Option<Text>, b: Option<Text>) {
    a == b || (a.Some? && b.Some? && Respelled(a.value, b.value))
  }

  predicate SameField(a: Field, b: Field) {
    a == b || (a.Given? && b.Given? && Respelled(a.text, b.text))
  }

  /** The two filters differ at most in how their felts are written. */
  predicate SameFilter(f: TxFilter, g: TxFilter) {
    f.txType == g.txType && SameOption(f.from, g.from) && SameField(f.to, g.to) && SameField(f.func, g.func)
  }

  lemma RespelledHeader(keccak: Keccak, tx: TxData, f: TxFilter, g: TxFilter, a: Option<Text>, b: Option<Text>)
    requires SameFilter(f, g) && SameOption(a, b)
    ensures HeaderPasses(keccak, tx, f, a) == HeaderPasses(keccak, tx, g, b)
  {
  }

  lemma RespelledFunction(keccak: Keccak, call: ContractCall, f: Field, g: Field)
    requires SameField(f, g)
    ensures HasFunction(keccak, call, f) == HasFunction(keccak, call, g)
  {
  }

  lemma RespelledTarget(call: ContractCall, f: Field, g: Field)
    requires SameField(f, g)
    ensures HasTarget(call, f) == HasTarget(call, g)
  {
  }

  lemma RespelledCalls(keccak: Keccak, calls: seq<ContractCall>, f: TxFilter, g: TxFilter,
                       a: Option<Text>, b: Option<Text>)
    requires SameFilter(f, g) && SameOption(a, b)
    ensures CallsPass(keccak, calls, f, a) == CallsPass(keccak, calls, g, b)
  {
    var t, u := TargetOf(f, a), TargetOf(g, b);
    forall i | 0 <= i < |calls|
      ensures HasFunction(keccak, calls[i], f.func) == HasFunction(keccak, calls[i], g.func)
      ensures HasTarget(calls[i], t) == HasTarget(calls[i], u)
    {
      RespelledFunction(keccak, calls[i], f.func, g.func);
      RespelledTarget(calls[i], t, u);
    }
    assert AnyHasFunction(keccak, calls, f.func) == AnyHasFunction(keccak, calls, g.func);
    assert AnyHasTarget(calls, t) == AnyHasTarget(calls, u);
  }

  lemma RespelledRawTarget(words: Words, to: Field, too: Field)
    requires SameField(to, too)
    ensures RawTargetFound(words, to) == RawTargetFound(words, too)
  {
    if to.Given? {
      forall i | 0 <= i < |words|
        ensures HexEq(words[i], Some(to.text)) == HexEq(words[i], Some(too.text))
      {
      }
    }
  }

  /** The verdict does not come down to finding the function among the raw words. */
  predicate FunctionIsMoot(keccak: Keccak, tx: TxData, f: TxFilter, a: Option<Text>) {
    !HeaderPasses(keccak, tx, f, a) || DecodesToCalls(tx) || !RawTargetFound(tx.calldata, f.to)
  }

  /** Filters that agree everywhere but on raw words differ exactly where those decide. */
  lemma RawWordsDecide(keccak: Keccak, tx: TxData, f: TxFilter, g: TxFilter, a: Option<Text>, b: Option<Text>)
    requires HeaderPasses(keccak, tx, f, a) == HeaderPasses(keccak, tx, g, b)
    requires RawTargetFound(tx.calldata, f.to) == RawTargetFound(tx.calldata, g.to)
    requires Decode(tx).Ok? && Decode(tx).value.Some? ==>
      CallsPass(keccak, Decode(tx).value.value, f, a) == CallsPass(keccak, Decode(tx).value.value, g, b)
    ensures Verdict(keccak, tx, Some(f), a) == Verdict(keccak, tx, Some(g), b)
      <==> FunctionIsMoot(keccak, tx, f, a)
           || RawFunctionFound(keccak, tx.calldata, f.func) == RawFunctionFound(keccak, tx.calldata, g.func)
  {
  }

  /**
   * Padding, case and base leave a verdict alone exactly when it does not come down to the raw
   * words, or these hold the function in both spellings or in neither.
   */
  lemma RespellingKeepsVerdictIff(keccak: Keccak, tx: TxData, f: TxFilter, g: TxFilter,
                                  a: Option<Text>, b: Option<Text>)
    requires SameFilter(f, g) && SameOption(a, b)
    ensures Verdict(keccak, tx, Some(f), a) == Verdict(keccak, tx, Some(g), b)
      <==> FunctionIsMoot(keccak, tx, f, a)
           || RawFunctionFound(keccak, tx.calldata, f.func) == RawFunctionFound(keccak, tx.calldata, g.func)
  {
    RespelledHeader(keccak, tx, f, g, a, b);
    RespelledRawTarget(tx.calldata, f.to, g.to);
    if Decode(tx).Ok? && Decode(tx).value.Some? {
      RespelledCalls(keccak, Decode(tx).value.value, f, g, a, b);
    }
    RawWordsDecide(keccak, tx, f, g, a, b);
  }

  /** In particular where the function is written the same, or the calldata decodes to calls. */
  lemma RespellingKeepsVerdict(keccak: Keccak, tx: TxData, f: TxFilter, g: TxFilter,
                               a: Option<Text>, b: Option<Text>)
    requires SameFilter(f, g) && SameOption(a, b)
    requires f.func == g.func || DecodesToCalls(tx)
    ensures Verdict(keccak, tx, Some(f), a) == Verdict(keccak, tx, Some(g), b)
  {
    RespellingKeepsVerdictIff(keccak, tx, f, g, a, b);
  }

  const ANY: TxFilter := TxFilter(None, Undefined, Undefined, None)

  function InvokeV1(words: Words): TxData {
    TxData(Invoke, Some("0x1"), None, None, None, words)
  }

  /** A word with the value 0, padded beyond both texts. */
  function ZeroCount(t: Text, u: Text): Text
    requires Respelled(t, u)
  {
    Hex(0, t.pad + u.pad + 1, 0)
  }

  /** An INVOKE transaction that makes no calls and carries one more word. */
  lemma NoCallsDecodes(zero: Text, t: Text)
    requires BigInt(Some(zero)) == Some(0)
    ensures Decode(InvokeV1([Some(zero), Some(t)])) == Ok(Some([]))
  {
  }

  /** On its raw words a function is found in one spelling and not in the other. */
  lemma OneSpellingIsFound(keccak: Keccak, t: Text, u: Text)
    requires Respelled(t, u) && t != u && SelectorHex(keccak, t) != u
    ensures var tx := InvokeV1([Some(ZeroCount(t, u)), Some(u)]);
      && !Accepts(keccak, tx, ANY.(func := Given(t)), None)
      && Accepts(keccak, tx, ANY.(func := Given(u)), None)
  {
    var words: Words := [Some(ZeroCount(t, u)), Some(u)];
    NoCallsDecodes(ZeroCount(t, u), u);
    assert words[1] == Some(u);
    assert !RawFunctionFound(keccak, words, Given(t)) && RawFunctionFound(keccak, words, Given(u));
  }

  /** Two spellings of a function filter accept the same transactions exactly when they are one. */
  lemma RespelledFunctionIff(keccak: Keccak, t: Text, u: Text)
    requires Respelled(t, u)
    ensures (forall tx: TxData ::
               Verdict(keccak, tx, Some(ANY.(func := Given(t))), None)
               == Verdict(keccak, tx, Some(ANY.(func := Given(u))), None))
            <==> t == u
  {
    if t != u {
      if SelectorHex(keccak, t) != u {
        OneSpellingIsFound(keccak, t, u);
      } else {
        OneSpellingIsFound(keccak, u, t);
      }
    }
  }

  /**
   * Without an entry-point selector a function name and any spelling of its hash give the same
   * verdict exactly when it does not come down to the raw words, or these hold both or neither.
   */
  lemma NameAndSelectorInterchangeIff(keccak: Keccak, tx: TxData, f: TxFilter, name: string, pad: nat, caps: nat,
                                      a: Option<Text>)
    requires f.func == Given(Name(name)) && !Truthy(tx.entryPointSelector)
    ensures var hashed := Given(Hex(keccak(Some(Name(name))), pad, caps));
      Verdict(keccak, tx, Some(f), a) == Verdict(keccak, tx, Some(f.(func := hashed)), a)
      <==> FunctionIsMoot(keccak, tx, f, a)
           || RawFunctionFound(keccak, tx.calldata, f.func) == RawFunctionFound(keccak, tx.calldata, hashed)
  {
    var g := f.(func := Given(Hex(keccak(Some(Name(name))), pad, caps)));
    if Decode(tx).Ok? && Decode(tx).value.Some? {
      var calls := Decode(tx).value.value;
      forall i | 0 <= i < |calls|
        ensures HasFunction(keccak, calls[i], f.func) == HasFunction(keccak, calls[i], g.func)
      {
      }
      assert AnyHasFunction(keccak, calls, f.func) == AnyHasFunction(keccak, calls, g.func);
    }
    RawWordsDecide(keccak, tx, f, g, a, a);
  }

  /** With one, a function name rejects every transaction: the name itself must match as a felt. */
  lemma NamesNeverMatchEntryPoints(keccak: Keccak, tx: TxData, f: TxFilter, a: Option<Text>)
    requires f.func.Given? && f.func.text.Name? && Truthy(tx.entryPointSelector)
    ensures Verdict(keccak, tx, Some(f), a) == Ok(false)
  {
  }

  // ---- narrowing ----

  /** g sets fields that f leaves open; `to` only when no datasource address is given. */
  predicate Narrows(f: TxFilter, g: TxFilter, address: Option<Text>) {
    && (f.txType == g.txType || f.txType.None?)
    && (f.from == g.from || f.from.None?)
    && (f.func == g.func || f.func.Undefined?)
    && (f.to == g.to || (f.to.Undefined? && !Truthy(address)))
  }

  /** Setting a field can only shrink the accepted transactions. */
  lemma NarrowingShrinks(keccak: Keccak, tx: TxData, f: TxFilter, g: TxFilter, address: Option<Text>)
    requires Narrows(f, g, address) && Accepts(keccak, tx, g, address)
    ensures Accepts(keccak, tx, f, address)
  {
    assert HeaderPasses(keccak, tx, f, address);
    assert BodyPasses(keccak, tx, Decode(tx).value, f, address);
  }

  /** `to` can never match, or matches the same calls as the datasource address. */
  predicate HarmlessTo(to: Field, address: Option<Text>) {
    || !Truthy(address)
    || (to.Given? && (to.text.Blank? || FeltOf(Some(to.text)).None? || HexEq(address, Some(to.text))))
  }

  lemma HarmlessToShrinks(keccak: Keccak, tx: TxData, f: TxFilter, to: Field, address: Option<Text>)
    requires f.to.Undefined? && HarmlessTo(to, address) && Accepts(keccak, tx, f.(to := to), address)
    ensures Accepts(keccak, tx, f, address)
  {
    var g := f.(to := to);
    assert HeaderPasses(keccak, tx, f, address);
    var calls := Decode(tx).value;
    if calls.Some? && calls.value != [] && Truthy(address) && !to.Undefined? {
      assert AnyHasTarget(calls.value, to);
      var i :| 0 <= i < |calls.value| && HasTarget(calls.value[i], to);
      assert HasTarget(calls.value[i], Given(address.value));
    }
  }

  /** An INVOKE transaction with one call to w. */
  function OneCall(w: Word): ContractCall { ContractCall(w, None, [], None) }

  lemma OneCallDecodes(w: Word)
    ensures |EncodeNew([OneCall(w)])| == 4
    ensures Decode(InvokeV1(EncodeNew([OneCall(w)]))) == Ok(Some([OneCall(w)]))
  {
    EncodeCallsLength([OneCall(w)]);
    assert Args([OneCall(w)][1..]) == 0;
    FewArgumentsAreSafe([OneCall(w)]);
  }

  /** Setting `to` beside an address shrinks the accepted set exactly when `to` is harmless. */
  lemma SettingToShrinksIff(keccak: Keccak, to: Field, address: Option<Text>)
    requires !to.Undefined?
    ensures (forall tx: TxData, f: TxFilter ::
               f.to.Undefined? && Accepts(keccak, tx, f.(to := to), address) ==> Accepts(keccak, tx, f, address))
            <==> HarmlessTo(to, address)
  {
    if HarmlessTo(to, address) {
      forall tx: TxData, f: TxFilter | f.to.Undefined? && Accepts(keccak, tx, f.(to := to), address)
        ensures Accepts(keccak, tx, f, address)
      {
        HarmlessToShrinks(keccak, tx, f, to, address);
      }
    } else {
      var w := if to.Given? then Some(to.text) else None;
      OneCallDecodes(w);
      var tx := InvokeV1(EncodeNew([OneCall(w)]));
      assert HasTarget(OneCall(w), to) && !HasTarget(OneCall(w), Given(address.value));
      assert [OneCall(w)][0] == OneCall(w);
      assert AnyHasTarget([OneCall(w)], to);
      assert Accepts(keccak, tx, ANY.(to := to), address) && !Accepts(keccak, tx, ANY, address);
    }
  }
}
