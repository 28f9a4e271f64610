/**
 `_print_fmt`: the walk over the stack frames and what it writes.

 The frame walker and the symbol resolver are replaced by their output, a
 sequence of frames each carrying the symbols it resolves to. The formatter
 is abstract: every write it would perform (the context header, one entry,
 `finish`, the trailing note) is one event, and an oracle `ok` says whether
 the k-th write attempt of the call (counting from 0) succeeds.
 */
module Printer {
  import opened Modes
  import Paths

  /** `MAX_NB_FRAMES`. */
  const MaxFrames: nat := 100

  /** The name of the frame below which a Short backtrace is cut. */
  const SentinelName: string := "__rust_begin_short_backtrace"

  /** A symbol name: text when it is valid UTF-8 (`as_str` succeeds). */
  datatype Name = Text(text: string) | Undecodable

  /** One record the resolver reports for a frame. */
  datatype Symbol = Symbol(name: Option<Name>, file: Option<Paths.BytesOrWide>, line: Option<nat>)

  /** One raw stack frame and the symbols it resolves to, innermost inlined call first. */
  datatype Frame = Frame(ip: nat, symbols: seq<Symbol>)

  /** One entry handed to the formatter: a resolved symbol, or a bare instruction pointer. */
  datatype Entry = Resolved(ip: nat, symbol: Symbol) | Raw(ip: nat)

  /** One write attempt on the formatter. */
  datatype Event = Context | Emit(entry: Entry) | Finish | Note

  datatype FmtResult = Ok | Err

  /** Whether the k-th write attempt succeeds. */
  type Oracle = nat -> bool

  /** Why the walk ended. */
  datatype End = NotStarted | Exhausted | Cap | SentinelHit | WriteFailed

  // ---------------------------------------------------------------------
  // The sentinel test.

  /** `t` occurs in `s` starting at position `i`. */
  predicate OccursAt(s: string, t: string, i: nat) {
    i + |t| <= |s| && s[i..i + |t|] == t
  }

  /** `str::contains`: `t` occurs in `s` at some position. */
  predicate Contains(s: string, t: string)
    decreases |s|
  {
    (|t| <= |s| && s[..|t|] == t) || (|s| > 0 && Contains(s[1..], t))
  }

  /** `Contains` finds `t` at some position of `s`, and only then. */
  lemma {:induction false} ContainsIff(s: string, t: string)
    ensures Contains(s, t) <==> exists i: nat :: OccursAt(s, t, i)
    decreases |s|
  {
    assert |t| <= |s| && s[..|t|] == t <==> OccursAt(s, t, 0);
    if |s| > 0 {
      ContainsIff(s[1..], t);
      if Contains(s[1..], t) {
        var i: nat :| OccursAt(s[1..], t, i);
        assert s[1..][i..i + |t|] == s[i + 1..i + 1 + |t|];
        assert OccursAt(s, t, i + 1);
      }
      if exists i: nat :: OccursAt(s, t, i) {
        var i: nat :| OccursAt(s, t, i);
        if i > 0 {
          assert s[1..][i - 1..i - 1 + |t|] == s[i..i + |t|];
          assert OccursAt(s[1..], t, i - 1);
        }
      }
    } else {
      if exists i: nat :: OccursAt(s, t, i) {
        var i: nat :| OccursAt(s, t, i);
        assert |t| == 0 && i == 0;
      }
    }
  }

  predicate IsSentinel(sym: Symbol) {
    sym.name.Some? && sym.name.value.Text? && Contains(sym.name.value.text, SentinelName)
  }

  /** The symbol is skipped and ends the walk: only in Short mode. */
  predicate Hides(fmt: PrintFmt, sym: Symbol) {
    fmt == Short && IsSentinel(sym)
  }

  /** Some symbol of `syms` is the sentinel. */
  predicate SomeSentinel(syms: seq<Symbol>)
    decreases |syms|
  {
    |syms| > 0 && (IsSentinel(syms[0]) || SomeSentinel(syms[1..]))
  }

  predicate HasSentinel(f: Frame) {
    SomeSentinel(f.symbols)
  }

  /** `SomeSentinel` holds exactly when the sentinel is at some position. */
  lemma {:induction false} SomeSentinelIff(syms: seq<Symbol>)
    ensures SomeSentinel(syms) <==> exists k :: 0 <= k < |syms| && IsSentinel(syms[k])
    decreases |syms|
  {
    if |syms| > 0 {
      SomeSentinelIff(syms[1..]);
      if exists k :: 0 <= k < |syms| && IsSentinel(syms[k]) {
        var k :| 0 <= k < |syms| && IsSentinel(syms[k]);
        if k > 0 {
          assert syms[1..][k - 1] == syms[k];
        }
      }
      if SomeSentinel(syms[1..]) && !IsSentinel(syms[0]) {
        var k :| 0 <= k < |syms[1..]| && IsSentinel(syms[1..][k]);
        assert IsSentinel(syms[k + 1]);
      }
    }
  }

  // ---------------------------------------------------------------------
  // Reference definitions of what a frame contributes.

  /** The symbols that are printed, in resolver order. */
  function Visible(fmt: PrintFmt, syms: seq<Symbol>): (vs: seq<Symbol>)
    ensures |vs| <= |syms|
    decreases |syms|
  {
    if |syms| == 0 then []
    else if Hides(fmt, syms[0]) then Visible(fmt, syms[1..])
    else [syms[0]] + Visible(fmt, syms[1..])
  }

  /** One entry per symbol, all for the same frame. */
  function Resolutions(ip: nat, syms: seq<Symbol>): (es: seq<Entry>)
    ensures |es| == |syms|
    decreases |syms|
  {
    if |syms| == 0 then [] else [Resolved(ip, syms[0])] + Resolutions(ip, syms[1..])
  }

  /** What a frame prints when nothing cuts the walk: its symbols, or one raw entry. */
  function FrameEntries(f: Frame): (es: seq<Entry>)
    ensures |es| >= 1
  {
    if |f.symbols| == 0 then [Raw(f.ip)] else Resolutions(f.ip, f.symbols)
  }

  /** The entries of whole frames, one after another. */
  function Flatten(frames: seq<Frame>): seq<Entry>
    decreases |frames|
  {
    if |frames| == 0 then [] else FrameEntries(frames[0]) + Flatten(frames[1..])
  }

  /** Without a hidden symbol every symbol is visible. */
  lemma {:induction false} NothingHiddenAllVisible(fmt: PrintFmt, syms: seq<Symbol>)
    ensures !(fmt == Short && SomeSentinel(syms)) ==> Visible(fmt, syms) == syms
    decreases |syms|
  {
    if |syms| > 0 {
      NothingHiddenAllVisible(fmt, syms[1..]);
      assert [syms[0]] + syms[1..] == syms;
    }
  }

  // ---------------------------------------------------------------------
  // The walk.

  /** The outcome of the resolver's callbacks for one frame. */
  datatype Pass = Pass(entries: seq<Entry>, stop: bool, res: bool)

  /**
   The per-symbol closure run over a frame's symbols. `next` numbers the
   first write; `res` is the result held before the frame. A sentinel sets
   `stop` and returns from the closure only, so the later symbols of the same
   frame are still printed.
   */
  function SymbolPass(fmt: PrintFmt, ip: nat, syms: seq<Symbol>, ok: Oracle, next: nat, res: bool): (p: Pass)
    ensures p.stop ==> fmt == Short
    decreases |syms|
  {
    if |syms| == 0 then Pass([], false, res)
    else if Hides(fmt, syms[0]) then
      var rest := SymbolPass(fmt, ip, syms[1..], ok, next, res);
      Pass(rest.entries, true, rest.res)
    else
      var rest := SymbolPass(fmt, ip, syms[1..], ok, next + 1, ok(next));
      Pass([Resolved(ip, syms[0])] + rest.entries, rest.stop, rest.res)
  }

  /**
   The closure prints the visible symbols in order, stops the walk exactly
   when some symbol is hidden, and leaves `res` at the outcome of its last
   write (unchanged when it wrote nothing).
   */
  lemma {:induction false} SymbolPassSpec(fmt: PrintFmt, ip: nat, syms: seq<Symbol>, ok: Oracle, next: nat, res: bool)
    ensures var p := SymbolPass(fmt, ip, syms, ok, next, res);
      && p.entries == Resolutions(ip, Visible(fmt, syms))
      && (p.stop <==> fmt == Short && SomeSentinel(syms))
      && p.res == if |p.entries| == 0 then res else ok(next + |p.entries| - 1)
    decreases |syms|
  {
    if |syms| > 0 {
      if Hides(fmt, syms[0]) {
        SymbolPassSpec(fmt, ip, syms[1..], ok, next, res);
      } else {
        SymbolPassSpec(fmt, ip, syms[1..], ok, next + 1, ok(next));
      }
    }
  }

  /** The walker callback's work on one frame that the cap lets through; `res` is Ok on entry. */
  function VisitFrame(fmt: PrintFmt, f: Frame, ok: Oracle, next: nat): (p: Pass)
    ensures p.stop ==> fmt == Short
  {
    var p := SymbolPass(fmt, f.ip, f.symbols, ok, next, true);
    if p.stop then p
    else if |f.symbols| == 0 then Pass([Raw(f.ip)], false, ok(next))
    else p
  }

  /**
   A frame stops the walk exactly when it holds the sentinel in Short mode;
   otherwise it prints all its symbols, or one raw entry when it has none;
   `res` is the outcome of the frame's last write.
   */
  lemma VisitFrameSpec(fmt: PrintFmt, f: Frame, ok: Oracle, next: nat)
    ensures var p := VisitFrame(fmt, f, ok, next);
      && (p.stop <==> fmt == Short && HasSentinel(f))
      && (!p.stop ==> p.entries == FrameEntries(f))
      && (p.stop ==> p.entries == Resolutions(f.ip, Visible(Short, f.symbols)))
      && p.res == (|p.entries| == 0 || ok(next + |p.entries| - 1))
  {
    SymbolPassSpec(fmt, f.ip, f.symbols, ok, next, true);
    NothingHiddenAllVisible(fmt, f.symbols);
  }

  /** The state after the walk: the entries written, the final `idx` and `res`, why it ended. */
  datatype Walked = Walked(entries: seq<Entry>, idx: nat, res: bool, end: End)

  /**
   `trace_unsynchronized` driving the callback over `frames`, starting with
   frame index `idx` and write number `next`. The callback refuses a frame
   once `idx > MAX_NB_FRAMES` in Short mode, stops after a sentinel frame
   (without counting it), and stops after a frame whose last write failed.
   */
  function Walk(fmt: PrintFmt, frames: seq<Frame>, ok: Oracle, idx: nat, next: nat): (w: Walked)
    decreases |frames|
  {
    if |frames| == 0 then Walked([], idx, true, Exhausted)
    else if fmt == Short && idx > MaxFrames then Walked([], idx, true, Cap)
    else
      var v := VisitFrame(fmt, frames[0], ok, next);
      if v.stop then Walked(v.entries, idx, v.res, SentinelHit)
      else if !v.res then Walked(v.entries, idx + 1, false, WriteFailed)
      else
        var w := Walk(fmt, frames[1..], ok, idx + 1, next + |v.entries|);
        Walked(v.entries + w.entries, w.idx, w.res, w.end)
  }

  /** One frame taken: the walk continues from the next frame with the next write number. */
  lemma WalkStep(fmt: PrintFmt, frames: seq<Frame>, ok: Oracle, idx: nat, next: nat)
    requires |frames| > 0 && !(fmt == Short && idx > MaxFrames)
    requires !VisitFrame(fmt, frames[0], ok, next).stop && VisitFrame(fmt, frames[0], ok, next).res
    ensures var v := VisitFrame(fmt, frames[0], ok, next);
      var w := Walk(fmt, frames[1..], ok, idx + 1, next + |v.entries|);
      Walk(fmt, frames, ok, idx, next) == Walked(v.entries + w.entries, w.idx, w.res, w.end)
  {
  }

  /** How a walk can end: the frame count, the cap, and `res` agree with the reason it stopped. */
  predicate EndsConsistently(fmt: PrintFmt, frames: seq<Frame>, idx: nat, w: Walked) {
    && idx <= w.idx <= idx + |frames|
    && (fmt == Short && idx <= MaxFrames + 1 ==> w.idx <= MaxFrames + 1)
    && (w.end == Exhausted ==> w.idx == idx + |frames|)
    && (w.end == Cap ==> fmt == Short && w.idx > MaxFrames)
    && (w.end == SentinelHit ==> fmt == Short)
    && w.end != NotStarted
    && (w.end == Exhausted || w.end == Cap ==> w.res)
    && (w.end == WriteFailed ==> !w.res)
  }

  /**
   Every walk counts at most its frames (at most `MaxFrames + 1` in Short
   mode), ends for one of the four reasons, and holds Ok unless a write failed.
   */
  lemma {:induction false} WalkEnds(fmt: PrintFmt, frames: seq<Frame>, ok: Oracle, idx: nat, next: nat)
    ensures EndsConsistently(fmt, frames, idx, Walk(fmt, frames, ok, idx, next))
    decreases |frames|
  {
    if |frames| > 0 && !(fmt == Short && idx > MaxFrames) {
      var v := VisitFrame(fmt, frames[0], ok, next);
      if !v.stop && v.res {
        WalkEnds(fmt, frames[1..], ok, idx + 1, next + |v.entries|);
        WalkStep(fmt, frames, ok, idx, next);
      }
    }
  }

  /** `res` is the outcome of the last of the walk's writes, numbered from `next` (Ok when there were none). */
  predicate LastWriteDecides(w: Walked, ok: Oracle, next: nat) {
    w.res <==> (|w.entries| == 0 || ok(next + |w.entries| - 1))
  }

  /** A walk that ends within its first frame keeps that frame's result. */
  lemma EndsInFirstFrame(fmt: PrintFmt, frames: seq<Frame>, ok: Oracle, idx: nat, next: nat)
    requires |frames| > 0 && !(fmt == Short && idx > MaxFrames)
    requires VisitFrame(fmt, frames[0], ok, next).stop || !VisitFrame(fmt, frames[0], ok, next).res
    ensures LastWriteDecides(Walk(fmt, frames, ok, idx, next), ok, next)
  {
    VisitFrameSpec(fmt, frames[0], ok, next);
  }

  /** A walk past the first frame keeps the result of the rest of the walk. */
  lemma PassesFirstFrame(fmt: PrintFmt, frames: seq<Frame>, ok: Oracle, idx: nat, next: nat)
    requires |frames| > 0 && !(fmt == Short && idx > MaxFrames)
    requires !VisitFrame(fmt, frames[0], ok, next).stop && VisitFrame(fmt, frames[0], ok, next).res
    requires var n := |VisitFrame(fmt, frames[0], ok, next).entries|;
      LastWriteDecides(Walk(fmt, frames[1..], ok, idx + 1, next + n), ok, next + n)
    ensures LastWriteDecides(Walk(fmt, frames, ok, idx, next), ok, next)
  {
    VisitFrameSpec(fmt, frames[0], ok, next);
  }

  /** After the walk, `res` is the outcome of the last write it made (Ok when it made none). */
  lemma {:induction false} WalkResIsLastWrite(fmt: PrintFmt, frames: seq<Frame>, ok: Oracle, idx: nat, next: nat)
    ensures LastWriteDecides(Walk(fmt, frames, ok, idx, next), ok, next)
    decreases |frames|
  {
    if |frames| > 0 && !(fmt == Short && idx > MaxFrames) {
      var v := VisitFrame(fmt, frames[0], ok, next);
      if v.stop || !v.res {
        EndsInFirstFrame(fmt, frames, ok, idx, next);
      } else {
        WalkResIsLastWrite(fmt, frames[1..], ok, idx + 1, next + |v.entries|);
        PassesFirstFrame(fmt, frames, ok, idx, next);
      }
    }
  }

  // ---------------------------------------------------------------------
  // The whole call.

  /** The write attempts of one call, the entries among them, the walk's end, and the result. */
  datatype Printed = Printed(writes: seq<Event>, entries: seq<Entry>, frames: nat, end: End, result: FmtResult)

  function Emits(es: seq<Entry>): (evs: seq<Event>)
    ensures |evs| == |es|
    ensures forall k :: 0 <= k < |es| ==> evs[k] == Emit(es[k])
  {
    seq(|es|, k requires 0 <= k < |es| => Emit(es[k]))
  }

  /** What may follow the entries: nothing, `finish`, or `finish` and the note. */
  predicate IsTail(tail: seq<Event>) {
    tail == [] || tail == [Finish] || tail == [Finish, Note]
  }

  /**
   `_print_fmt`: the context header, the walk, then `finish` and in Short mode
   the note. The first failure among header, walk result, `finish` and note is
   returned at once.
   */
  function PrintTrace(fmt: PrintFmt, frames: seq<Frame>, ok: Oracle): (r: Printed)
    ensures |r.writes| >= 1 && r.writes[0] == Context
    ensures exists tail :: IsTail(tail) && r.writes == [Context] + Emits(r.entries) + tail
    ensures r.result == Ok <==> ok(|r.writes| - 1)
    ensures Note in r.writes ==> fmt == Short && r.writes[|r.writes| - 1] == Note
    ensures r.result == Ok ==> (Note in r.writes <==> fmt == Short)
    ensures r.result == Ok ==> Finish in r.writes && (r.end == Exhausted || r.end == Cap || r.end == SentinelHit)
    ensures fmt == Short ==> r.frames <= MaxFrames + 1
    ensures r.frames <= |frames|
    ensures !ok(0) ==> r.entries == [] && r.frames == 0 && r.end == NotStarted && r.result == Err
    ensures ok(0) ==> var w := Walk(fmt, frames, ok, 0, 1);
      r.entries == w.entries && r.frames == w.idx && r.end == w.end
  {
    if !ok(0) then
      assert [Context] == [Context] + Emits([]) + [];
      Printed([Context], [], 0, NotStarted, Err)
    else
      var w := Walk(fmt, frames, ok, 0, 1);
      WalkEnds(fmt, frames, ok, 0, 1);
      WalkResIsLastWrite(fmt, frames, ok, 0, 1);
      var body := [Context] + Emits(w.entries);
      var n := |body|;
      assert body == [Context] + Emits(w.entries) + [];
      if !w.res then Printed(body, w.entries, w.idx, w.end, Err)
      else if !ok(n) then Printed(body + [Finish], w.entries, w.idx, w.end, Err)
      else if fmt == Short then
        var writes := body + [Finish, Note];
        assert Note !in body;
        Printed(writes, w.entries, w.idx, w.end, if ok(n + 1) then Ok else Err)
      else
        assert Note !in body + [Finish];
        Printed(body + [Finish], w.entries, w.idx, w.end, Ok)
  }

  /**
   `finish` is attempted exactly when the header and the walk's last write
   (write number `|entries|`) succeeded, and the note exactly when, in Short
   mode, `finish` was attempted and succeeded.
   */
  lemma FinishAndNote(fmt: PrintFmt, frames: seq<Frame>, ok: Oracle)
    ensures var r := PrintTrace(fmt, frames, ok);
      && (Finish in r.writes <==> ok(0) && (|r.entries| == 0 || ok(|r.entries|)))
      && (Note in r.writes <==> fmt == Short && Finish in r.writes && ok(|r.entries| + 1))
  {
    if ok(0) {
      WalkResIsLastWrite(fmt, frames, ok, 0, 1);
      var w := Walk(fmt, frames, ok, 0, 1);
      assert Finish !in [Context] + Emits(w.entries);
    }
  }

  // ---------------------------------------------------------------------
  // Properties of the walk.

  ghost predicate AllOk(ok: Oracle) {
    forall k :: ok(k)
  }

  /** With every write succeeding, a frame the walk does not stop at prints its entries and keeps `res` Ok. */
  lemma CleanVisit(fmt: PrintFmt, f: Frame, ok: Oracle, next: nat)
    requires AllOk(ok)
    requires !(fmt == Short && HasSentinel(f))
    ensures VisitFrame(fmt, f, ok, next) == Pass(FrameEntries(f), false, true)
  {
    VisitFrameSpec(fmt, f, ok, next);
    assert ok(next + |FrameEntries(f)| - 1);
  }

  /** The entries of the first `n` frames: the first frame's, then those of the next `n - 1`. */
  lemma FlattenPrefixStep(frames: seq<Frame>, n: nat)
    requires 0 < n <= |frames|
    ensures Flatten(frames[..n]) == FrameEntries(frames[0]) + Flatten(frames[1..][..n - 1])
  {
    assert frames[..n][1..] == frames[1..][..n - 1];
  }

  /** In Full mode, with every write succeeding, every frame is printed in full. */
  lemma {:induction false} FullWalkPrintsAll(frames: seq<Frame>, ok: Oracle, idx: nat, next: nat)
    requires AllOk(ok)
    ensures Walk(Full, frames, ok, idx, next) == Walked(Flatten(frames), idx + |frames|, true, Exhausted)
    decreases |frames|
  {
    if |frames| > 0 {
      FullWalkPrintsAll(frames[1..], ok, idx + 1, next + |FrameEntries(frames[0])|);
      CleanStep(Full, frames, ok, idx, next);
    }
  }

  /** Short mode without sentinel: the first `MaxFrames + 1 - idx` frames are printed, then the cap stops the walk. */
  lemma {:induction false} ShortWalkCaps(frames: seq<Frame>, ok: Oracle, idx: nat, next: nat)
    requires AllOk(ok)
    requires idx <= MaxFrames + 1
    requires forall k :: 0 <= k < |frames| ==> !HasSentinel(frames[k])
    ensures var n := if |frames| <= MaxFrames + 1 - idx then |frames| else MaxFrames + 1 - idx;
      Walk(Short, frames, ok, idx, next)
        == Walked(Flatten(frames[..n]), idx + n, true, if n < |frames| then Cap else Exhausted)
    decreases |frames|
  {
    var n := if |frames| <= MaxFrames + 1 - idx then |frames| else MaxFrames + 1 - idx;
    if |frames| == 0 {
    } else if idx > MaxFrames {
      assert frames[..0] == [];
    } else {
      var tail, end := frames[1..], if n < |frames| then Cap else Exhausted;
      ShortWalkCaps(tail, ok, idx + 1, next + |FrameEntries(frames[0])|);
      assert Flatten(tail[..n - 1]) + [] == Flatten(tail[..n - 1]);
      CleanFrameFirst(frames, ok, idx, next, n, [], end);
      assert Flatten(frames[..n]) + [] == Flatten(frames[..n]);
    }
  }

  /** A Short walk whose first frame holds the sentinel prints that frame's other symbols and stops there. */
  lemma SentinelFrameFirst(frames: seq<Frame>, ok: Oracle, idx: nat, next: nat)
    requires AllOk(ok)
    requires |frames| > 0 && idx <= MaxFrames && HasSentinel(frames[0])
    ensures Walk(Short, frames, ok, idx, next)
      == Walked(Resolutions(frames[0].ip, Visible(Short, frames[0].symbols)), idx, true, SentinelHit)
  {
    var v := VisitFrame(Short, frames[0], ok, next);
    VisitFrameSpec(Short, frames[0], ok, next);
    assert v.stop;
    assert v.res by {
      if |v.entries| > 0 {
        assert ok(next + |v.entries| - 1);
      }
    }
  }

  /** With every write succeeding, a first frame the walk does not stop at is printed in full and the walk goes on. */
  lemma CleanStep(fmt: PrintFmt, frames: seq<Frame>, ok: Oracle, idx: nat, next: nat)
    requires AllOk(ok)
    requires |frames| > 0 && !(fmt == Short && idx > MaxFrames) && !(fmt == Short && HasSentinel(frames[0]))
    ensures var w := Walk(fmt, frames[1..], ok, idx + 1, next + |FrameEntries(frames[0])|);
      Walk(fmt, frames, ok, idx, next) == Walked(FrameEntries(frames[0]) + w.entries, w.idx, w.res, w.end)
  {
    CleanVisit(fmt, frames[0], ok, next);
    WalkStep(fmt, frames, ok, idx, next);
  }

  /** A sentinel-free first frame is printed in full ahead of whatever the rest of the walk prints. */
  lemma CleanFrameFirst(frames: seq<Frame>, ok: Oracle, idx: nat, next: nat, k: nat, rest: seq<Entry>, end: End)
    requires AllOk(ok)
    requires 0 < k <= |frames| && idx <= MaxFrames && !HasSentinel(frames[0])
    requires Walk(Short, frames[1..], ok, idx + 1, next + |FrameEntries(frames[0])|)
      == Walked(Flatten(frames[1..][..k - 1]) + rest, idx + k, true, end)
    ensures Walk(Short, frames, ok, idx, next) == Walked(Flatten(frames[..k]) + rest, idx + k, true, end)
  {
    CleanStep(Short, frames, ok, idx, next);
    FlattenPrefixStep(frames, k);
    var a, b := FrameEntries(frames[0]), Flatten(frames[1..][..k - 1]);
    assert a + (b + rest) == (a + b) + rest;
  }

  /** Dropping the first frame moves the first sentinel from frame `k` to frame `k - 1`. */
  lemma SentinelShift(frames: seq<Frame>, k: nat)
    requires 0 < k < |frames|
    requires forall j :: 0 <= j < k ==> !HasSentinel(frames[j])
    ensures forall j :: 0 <= j < k - 1 ==> !HasSentinel(frames[1..][j])
    ensures frames[1..][k - 1] == frames[k]
  {
    forall j | 0 <= j < k - 1 ensures !HasSentinel(frames[1..][j]) {
      assert frames[1..][j] == frames[j + 1];
    }
  }

  /**
   Short mode, the first sentinel in frame `k` below the cap: the frames before
   it are printed in full, then that frame's other symbols, and the walk stops
   without counting the sentinel frame.
   */
  lemma {:induction false} ShortWalkStopsAtSentinel(frames: seq<Frame>, ok: Oracle, idx: nat, next: nat, k: nat)
    requires AllOk(ok)
    requires k < |frames| && idx + k <= MaxFrames
    requires forall j :: 0 <= j < k ==> !HasSentinel(frames[j])
    requires HasSentinel(frames[k])
    ensures Walk(Short, frames, ok, idx, next)
      == Walked(Flatten(frames[..k]) + Resolutions(frames[k].ip, Visible(Short, frames[k].symbols)), idx + k, true, SentinelHit)
    decreases k
  {
    var rest := Resolutions(frames[k].ip, Visible(Short, frames[k].symbols));
    if k == 0 {
      SentinelFrameFirst(frames, ok, idx, next);
      assert frames[..0] == [];
    } else {
      SentinelShift(frames, k);
      ShortWalkStopsAtSentinel(frames[1..], ok, idx + 1, next + |FrameEntries(frames[0])|, k - 1);
      CleanFrameFirst(frames, ok, idx, next, k, rest, SentinelHit);
    }
  }

  /** Frames past the first one are reached exactly when the first frame's last write succeeded. */
  lemma ContinuesIffLastWriteOk(fmt: PrintFmt, frames: seq<Frame>, ok: Oracle, idx: nat, next: nat)
    requires |frames| >= 1
    requires fmt == Full || (idx <= MaxFrames && !HasSentinel(frames[0]))
    ensures var w := Walk(fmt, frames, ok, idx, next);
      (w.end == WriteFailed && w.idx == idx + 1) <==> !ok(next + |FrameEntries(frames[0])| - 1)
  {
    var v := VisitFrame(fmt, frames[0], ok, next);
    VisitFrameSpec(fmt, frames[0], ok, next);
    assert !v.stop && v.res == ok(next + |FrameEntries(frames[0])| - 1);
    if v.res {
      FirstFramePasses(fmt, frames, ok, idx, next);
    } else {
      FirstFrameFails(fmt, frames, ok, idx, next);
    }
  }

  /** When the first frame's last write fails, the walk ends there, having counted that frame. */
  lemma FirstFrameFails(fmt: PrintFmt, frames: seq<Frame>, ok: Oracle, idx: nat, next: nat)
    requires |frames| > 0 && !(fmt == Short && idx > MaxFrames)
    requires !VisitFrame(fmt, frames[0], ok, next).stop && !VisitFrame(fmt, frames[0], ok, next).res
    ensures Walk(fmt, frames, ok, idx, next) == Walked(VisitFrame(fmt, frames[0], ok, next).entries, idx + 1, false, WriteFailed)
  {
  }

  /** When the first frame's last write succeeds, a failure can only come in a later frame. */
  lemma FirstFramePasses(fmt: PrintFmt, frames: seq<Frame>, ok: Oracle, idx: nat, next: nat)
    requires |frames| > 0 && !(fmt == Short && idx > MaxFrames)
    requires !VisitFrame(fmt, frames[0], ok, next).stop && VisitFrame(fmt, frames[0], ok, next).res
    ensures var w := Walk(fmt, frames, ok, idx, next);
      w.end == WriteFailed ==> w.idx > idx + 1
  {
    var v := VisitFrame(fmt, frames[0], ok, next);
    WalkStep(fmt, frames, ok, idx, next);
    WriteFailedCounts(fmt, frames[1..], ok, idx + 1, next + |v.entries|);
  }

  /** A walk that ended on a failed write counted the frame it failed in. */
  lemma {:induction false} WriteFailedCounts(fmt: PrintFmt, frames: seq<Frame>, ok: Oracle, idx: nat, next: nat)
    ensures Walk(fmt, frames, ok, idx, next).end == WriteFailed ==> Walk(fmt, frames, ok, idx, next).idx > idx
    decreases |frames|
  {
    if |frames| > 0 && !(fmt == Short && idx > MaxFrames) {
      var v := VisitFrame(fmt, frames[0], ok, next);
      if !v.stop && v.res {
        WriteFailedCounts(fmt, frames[1..], ok, idx + 1, next + |v.entries|);
        WalkStep(fmt, frames, ok, idx, next);
      }
    }
  }

  lemma {:induction false} FlattenOfUnresolved(frames: seq<Frame>)
    requires forall k :: 0 <= k < |frames| ==> |frames[k].symbols| == 0
    ensures Flatten(frames) == seq(|frames|, k requires 0 <= k < |frames| => Raw(frames[k].ip))
    decreases |frames|
  {
    if |frames| > 0 {
      FlattenOfUnresolved(frames[1..]);
    }
  }

  /**
   More than `MaxFrames + 1` unresolved frames in Short mode: `MaxFrames + 1`
   raw entries, then `finish` and the note; Full mode prints them all without note.
   */
  /** With every write succeeding, Full mode prints every frame, then `finish`, and returns Ok. */
  lemma FullTracePrintsAll(frames: seq<Frame>, ok: Oracle)
    requires AllOk(ok)
    ensures var r := PrintTrace(Full, frames, ok);
      r.entries == Flatten(frames) && r.frames == |frames| && r.result == Ok
      && r.writes == [Context] + Emits(Flatten(frames)) + [Finish]
  {
    assert ok(0);
    FullWalkPrintsAll(frames, ok, 0, 1);
  }

  /**
   With every write succeeding and no sentinel, Short mode prints the first
   `MaxFrames + 1` frames (or all, if fewer), then `finish` and the note.
   */
  lemma ShortTraceCaps(frames: seq<Frame>, ok: Oracle)
    requires AllOk(ok)
    requires forall k :: 0 <= k < |frames| ==> !HasSentinel(frames[k])
    ensures var n := if |frames| <= MaxFrames + 1 then |frames| else MaxFrames + 1;
      var r := PrintTrace(Short, frames, ok);
      r.entries == Flatten(frames[..n]) && r.frames == n && r.result == Ok
      && r.writes == [Context] + Emits(Flatten(frames[..n])) + [Finish, Note]
  {
    assert ok(0);
    ShortWalkCaps(frames, ok, 0, 1);
  }

  lemma CapVersusFull(frames: seq<Frame>, ok: Oracle)
    requires AllOk(ok)
    requires |frames| > MaxFrames + 1
    requires forall k :: 0 <= k < |frames| ==> |frames[k].symbols| == 0
    ensures var r := PrintTrace(Short, frames, ok);
      |r.entries| == MaxFrames + 1 && r.end == Cap && r.result == Ok
      && r.writes[|r.writes| - 1] == Note
    ensures var r := PrintTrace(Full, frames, ok);
      |r.entries| == |frames| && r.end == Exhausted && r.result == Ok
      && Note !in r.writes
  {
    forall k | 0 <= k < |frames| ensures !HasSentinel(frames[k]) {
    }
    ShortWalkCaps(frames, ok, 0, 1);
    FlattenOfUnresolved(frames[..MaxFrames + 1]);
    FullWalkPrintsAll(frames, ok, 0, 1);
    FlattenOfUnresolved(frames);
  }

  // ---------------------------------------------------------------------
  // Concrete behaviours.

  function Named(s: string): Symbol {
    Symbol(Some(Text(s)), None, None)
  }

  /** An inlined frame of three symbols yields three entries but counts as one frame. */
  lemma InlinedFanOut(ok: Oracle)
    requires AllOk(ok)
    ensures var f := Frame(7, [Named("a"), Named("b"), Named("c")]);
      var w := Walk(Full, [f], ok, 0, 1);
      |w.entries| == 3 && w.idx == 1
  {
    var f := Frame(7, [Named("a"), Named("b"), Named("c")]);
    FullWalkPrintsAll([f], ok, 0, 1);
  }

  /** Only the last write of a frame decides: a failed first entry followed by a good one is not reported. */
  lemma FailureMaskedWithinFrame()
    ensures var f := Frame(7, [Named("a"), Named("b")]);
      var ok := (k: nat) => k != 1;
      var r := PrintTrace(Full, [f], ok);
      r.writes == [Context, Emit(Resolved(7, Named("a"))), Emit(Resolved(7, Named("b"))), Finish]
      && !ok(1) && r.result == Ok
  {
    var f := Frame(7, [Named("a"), Named("b")]);
    var ok := (k: nat) => k != 1;
    var v := VisitFrame(Full, f, ok, 1);
    assert v.entries == [Resolved(7, Named("a")), Resolved(7, Named("b"))];
    assert Walk(Full, [f], ok, 0, 1).entries == v.entries;
  }

  /** A name shorter than the sentinel's never contains it. */
  lemma ShortNameIsNotSentinel(s: string)
    requires |s| < |SentinelName|
    ensures !IsSentinel(Named(s))
  {
    ContainsIff(s, SentinelName);
  }

  /** The sentinel ends a Short walk but the other symbols of its frame are still printed. */
  lemma SentinelKeepsSiblings(ok: Oracle)
    requires AllOk(ok)
    ensures var f := Frame(7, [Named("a"), Named(SentinelName), Named("b")]);
      var g := Frame(8, [Named("c")]);
      Walk(Short, [f, g], ok, 0, 1) == Walked([Resolved(7, Named("a")), Resolved(7, Named("b"))], 0, true, SentinelHit)
  {
    var f := Frame(7, [Named("a"), Named(SentinelName), Named("b")]);
    var g := Frame(8, [Named("c")]);
    assert SentinelName[..|SentinelName|] == SentinelName;
    assert IsSentinel(f.symbols[1]);
    ShortNameIsNotSentinel("a");
    ShortNameIsNotSentinel("b");
    assert f.symbols[1..] == [Named(SentinelName), Named("b")];
    assert f.symbols[1..][1..] == [Named("b")];
    assert Visible(Short, [Named("b")]) == [Named("b")];
    assert Visible(Short, f.symbols) == [Named("a"), Named("b")];
    SentinelFrameFirst([f, g], ok, 0, 1);
  }
}
