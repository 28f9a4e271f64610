/**
 The enablement cache of `log_enabled`: whether, and how, a backtrace is
 printed. The answer comes from the `RUST_BACKTRACE` environment variable
 and is cached in one process-wide integer:
   0 = not yet computed, 1 = disabled, 2 = Short, anything else = Full.
 The store writes `v as isize` for an enabled mode, i.e. the discriminant of
 backtrace_rs's `PrintFmt`, which this model takes as a parameter (`Encoding`).
 The cache is modelled sequentially, as a state-transition function.
 */
module Enablement {
  import opened Modes

  /** The value of `RUST_BACKTRACE`, or None when the variable is unset. */
  type EnvValue = Option<string>

  /** The integer `v as isize` yields for each enabled mode. */
  datatype Encoding = Encoding(short: int, full: int)

  /** State value meaning "not yet computed". */
  const Unset: int := 0
  /** State value meaning "computed: do not print". */
  const Disabled: int := 1
  /** State value the decode reads as Short. */
  const ShortCode: int := 2

  /** What the decode expects of the store: Short as 2, Full outside {0, 1, 2}. */
  predicate Cacheable(enc: Encoding) {
    enc.short == ShortCode && enc.full != Unset && enc.full != Disabled && enc.full != ShortCode
  }

  /** Maps the environment value to a print mode (None: do not print). */
  function FromEnv(v: EnvValue): (r: Option<PrintFmt>)
    ensures r.None? <==> (v.None? || v.value == "0")
    ensures r == Some(Full) <==> v == Some("full")
    ensures r == Some(Short) <==> (v.Some? && v.value != "0" && v.value != "full")
  {
    match v
    case None => None
    case Some(x) =>
      if x == "0" then None
      else if x == "full" then Some(Full)
      else Some(Short)
  }

  /**
   The integer stored for a computed answer. "Do not print" is stored as 1 and
   always decodes back; an enabled mode decodes back exactly when its code is
   the one the decode reads as that mode.
   */
  function Store(val: Option<PrintFmt>, enc: Encoding): (r: int)
    ensures val.None? ==> r == Disabled && Cached(r) == Some(None)
    ensures Cached(r) == Some(val) <==>
      (|| val.None?
       || (val == Some(Short) && enc.short == ShortCode)
       || (val == Some(Full) && enc.full != Unset && enc.full != Disabled && enc.full != ShortCode))
  {
    match val
    case None => Disabled
    case Some(Short) => enc.short
    case Some(Full) => enc.full
  }

  /** The answer a state holds, or None when it holds none (the state is 0). */
  function Cached(state: int): (r: Option<Option<PrintFmt>>)
    ensures r.None? <==> state == Unset
    ensures r == Some(None) <==> state == Disabled
    ensures r == Some(Some(Short)) <==> state == ShortCode
  {
    if state == Unset then None
    else if state == Disabled then Some(None)
    else if state == ShortCode then Some(Some(Short))
    else Some(Some(Full))
  }

  /** The cache after one call, and that call's answer. */
  datatype Call = Call(state: int, result: Option<PrintFmt>)

  /**
   One call of `log_enabled`. `fuchsia` is the compile-time target test; `env`
   is what reading `RUST_BACKTRACE` would give, used only when the state is 0.
   */
  function LogEnabled(fuchsia: bool, state: int, env: EnvValue, enc: Encoding): (c: Call)
    ensures fuchsia ==> c == Call(state, Some(Full))
    ensures state != Unset ==> c.state == state
    ensures !fuchsia && state != Unset ==> c.result == Cached(state).value
    ensures !fuchsia && state == Unset ==> c.result == FromEnv(env)
    ensures !fuchsia && state == Unset ==> c.state == Store(FromEnv(env), enc)
    ensures c.state == Unset ==> state == Unset
  {
    if fuchsia then Call(state, Some(Full))
    else match Cached(state)
      case Some(answer) => Call(state, answer)
      case None =>
        var val := FromEnv(env);
        Call(Store(val, enc), val)
  }

  /** The answers of consecutive calls, the environment possibly changing between them. */
  function Run(fuchsia: bool, state: int, envs: seq<EnvValue>, enc: Encoding): (rs: seq<Option<PrintFmt>>)
    ensures |rs| == |envs|
    decreases |envs|
  {
    if |envs| == 0 then []
    else
      var c := LogEnabled(fuchsia, state, envs[0], enc);
      [c.result] + Run(fuchsia, c.state, envs[1..], enc)
  }

  /** The mapping on sample values: unset and "0" disable, "full" is Full, the rest Short. */
  lemma EnvTable()
    ensures FromEnv(None) == None
    ensures FromEnv(Some("0")) == None
    ensures FromEnv(Some("")) == Some(Short)
    ensures FromEnv(Some("full")) == Some(Full)
    ensures FromEnv(Some("1")) == Some(Short)
    ensures FromEnv(Some("other")) == Some(Short)
  {
  }

  /** A filled cache answers without reading the environment. */
  lemma FilledCacheIgnoresEnv(fuchsia: bool, state: int, e1: EnvValue, e2: EnvValue, enc: Encoding)
    requires state != Unset
    ensures LogEnabled(fuchsia, state, e1, enc) == LogEnabled(fuchsia, state, e2, enc)
  {
  }

  /** The store/decode round trip holds for every answer exactly when the encoding is cacheable. */
  lemma CacheableIff(enc: Encoding)
    ensures (forall v :: Cached(Store(v, enc)) == Some(v)) <==> Cacheable(enc)
  {
    if !Cacheable(enc) {
      if enc.short != ShortCode {
        assert Cached(Store(Some(Short), enc)) != Some(Some(Short));
      } else {
        assert Cached(Store(Some(Full), enc)) != Some(Some(Full));
      }
    }
  }

  /** Two consecutive calls agree, whatever the environment says at the second. */
  predicate RepeatsFirstAnswer(fuchsia: bool, state: int, e1: EnvValue, e2: EnvValue, enc: Encoding) {
    var c1 := LogEnabled(fuchsia, state, e1, enc);
    LogEnabled(fuchsia, c1.state, e2, enc) == c1
  }

  /** Under a cacheable encoding the second call returns the first call's answer and leaves the state alone. */
  lemma SecondCallAgrees(fuchsia: bool, state: int, e1: EnvValue, e2: EnvValue, enc: Encoding)
    requires Cacheable(enc)
    ensures RepeatsFirstAnswer(fuchsia, state, e1, e2, enc)
  {
    CacheableIff(enc);
    var c1 := LogEnabled(fuchsia, state, e1, enc);
    if !fuchsia && state == Unset {
      assert Cached(Store(c1.result, enc)) == Some(c1.result);
    }
  }

  /** Second calls always agree with first calls exactly when the encoding is cacheable. */
  lemma SecondCallAgreesIff(enc: Encoding)
    ensures (forall e1, e2 :: RepeatsFirstAnswer(false, Unset, e1, e2, enc)) <==> Cacheable(enc)
  {
    if Cacheable(enc) {
      forall e1, e2 ensures RepeatsFirstAnswer(false, Unset, e1, e2, enc) {
        SecondCallAgrees(false, Unset, e1, e2, enc);
      }
    } else if enc.short != ShortCode {
      var c1 := LogEnabled(false, Unset, Some("1"), enc);
      assert c1 == Call(enc.short, Some(Short));
      if enc.short == Unset {
        assert !RepeatsFirstAnswer(false, Unset, Some("1"), Some("0"), enc);
      } else {
        assert !RepeatsFirstAnswer(false, Unset, Some("1"), Some("1"), enc);
      }
    } else {
      var c1 := LogEnabled(false, Unset, Some("full"), enc);
      assert c1 == Call(enc.full, Some(Full));
      if enc.full == Unset {
        assert !RepeatsFirstAnswer(false, Unset, Some("full"), Some("0"), enc);
      } else {
        assert !RepeatsFirstAnswer(false, Unset, Some("full"), Some("full"), enc);
      }
    }
  }

  /** From a filled state every call returns the answer the state decodes to (Full on Fuchsia). */
  lemma {:induction false} FilledRunIsConstant(fuchsia: bool, state: int, envs: seq<EnvValue>, enc: Encoding)
    requires state != Unset
    ensures forall i :: 0 <= i < |envs| ==>
      Run(fuchsia, state, envs, enc)[i] == (if fuchsia then Some(Full) else Cached(state).value)
    decreases |envs|
  {
    if |envs| > 0 {
      FilledRunIsConstant(fuchsia, state, envs[1..], enc);
    }
  }

  /** Under a cacheable encoding every call of a run returns the first call's answer. */
  lemma {:induction false} CachedRunIsConstant(fuchsia: bool, state: int, envs: seq<EnvValue>, enc: Encoding)
    requires Cacheable(enc)
    ensures forall i :: 0 <= i < |envs| ==> Run(fuchsia, state, envs, enc)[i] == Run(fuchsia, state, envs, enc)[0]
  {
    if |envs| > 0 {
      var c := LogEnabled(fuchsia, state, envs[0], enc);
      var rs := Run(fuchsia, state, envs, enc);
      if c.state != Unset {
        FilledRunIsConstant(fuchsia, c.state, envs[1..], enc);
        SecondCallAgrees(fuchsia, state, envs[0], None, enc);
        forall i | 0 < i < |envs| ensures rs[i] == rs[0] {
          assert rs[i] == Run(fuchsia, c.state, envs[1..], enc)[i - 1];
        }
      } else {
        // Only the Fuchsia branch can leave the state at 0 under a cacheable encoding.
        assert fuchsia;
        FuchsiaRunIsFull(state, envs[1..], enc);
        forall i | 0 < i < |envs| ensures rs[i] == rs[0] {
          assert rs[i] == Run(fuchsia, c.state, envs[1..], enc)[i - 1];
        }
      }
    }
  }

  /** On Fuchsia every call answers Full, whatever the state and the environment. */
  lemma {:induction false} FuchsiaRunIsFull(state: int, envs: seq<EnvValue>, enc: Encoding)
    ensures forall i :: 0 <= i < |envs| ==> Run(true, state, envs, enc)[i] == Some(Full)
    decreases |envs|
  {
    if |envs| > 0 {
      FuchsiaRunIsFull(state, envs[1..], enc);
    }
  }

  /**
   When Short is stored as 0 the cache never fills for a Short answer: every
   call reads the environment again, so a later change of the variable is seen.
   */
  lemma {:induction false} ShortAsZeroRereads(state: int, envs: seq<EnvValue>, enc: Encoding)
    requires enc.short == Unset && state == Unset
    requires forall i :: 0 <= i < |envs| - 1 ==> FromEnv(envs[i]) == Some(Short)
    ensures forall i :: 0 <= i < |envs| ==> Run(false, state, envs, enc)[i] == FromEnv(envs[i])
    decreases |envs|
  {
    if |envs| > 0 {
      var rs := Run(false, state, envs, enc);
      if |envs| > 1 {
        assert LogEnabled(false, state, envs[0], enc).state == Unset;
        ShortAsZeroRereads(state, envs[1..], enc);
        forall i | 0 < i < |envs| ensures rs[i] == FromEnv(envs[i]) {
          assert rs[i] == Run(false, Unset, envs[1..], enc)[i - 1];
          assert envs[1..][i - 1] == envs[i];
        }
      }
    }
  }

  /** When Full is stored as 1, every call after a Full answer says "do not print". */
  lemma FullAsOneDisables(e1: EnvValue, e2: EnvValue, enc: Encoding)
    requires enc.full == Disabled
    requires FromEnv(e1) == Some(Full)
    ensures Run(false, Unset, [e1, e2], enc) == [Some(Full), None]
  {
    assert LogEnabled(false, Unset, e1, enc) == Call(Disabled, Some(Full));
    assert Run(false, Disabled, [e2], enc) == [None];
  }

  /** The encoding `v as isize` gives when `PrintFmt` is declared `Short, Full` without explicit values. */
  const DeclarationOrder: Encoding := Encoding(0, 1)

  /** An explicit encoding that satisfies the decode. */
  const ExplicitCodes: Encoding := Encoding(2, 3)

  /** As written with declaration-order discriminants: `RUST_BACKTRACE=full` prints once, then never. */
  lemma DeclarationOrderForgetsFull()
    ensures Run(false, Unset, [Some("full"), Some("full")], DeclarationOrder) == [Some(Full), None]
  {
    FullAsOneDisables(Some("full"), Some("full"), DeclarationOrder);
  }

  /** With explicit codes every run of calls repeats the first answer. */
  lemma {:induction false} ExplicitCodesKeepFirstAnswer(envs: seq<EnvValue>)
    ensures forall i :: 0 <= i < |envs| ==> Run(false, Unset, envs, ExplicitCodes)[i] == Run(false, Unset, envs, ExplicitCodes)[0]
  {
    CachedRunIsConstant(false, Unset, envs, ExplicitCodes);
  }
}
