/** The output functions of libc/stdio.c. Every character goes through
    `out(character, buffer, idx, maxlen)`; a sink bundles the function with its
    buffer, its bound and the terminal behind `_putchar`, and records the calls. */
module Sinks {
  import opened Machine
  import opened Screens
  import opened Layouts
  import opened Terminal

  datatype OutFct = OutBuffer | OutChar | OutNull

  datatype Call = Call(character: cchar, idx: u32)

  /** A run of calls that passes consecutive indices, wrapping at 2^32. */
  function CallsFrom(idx: int, s: Text): (calls: seq<Call>)
    ensures |calls| == |s|
  {
    seq(|s|, k requires 0 <= k < |s| => Call(s[k], ToU32(idx + k)))
  }

  lemma CallsConcat(idx: int, a: Text, b: Text)
    ensures CallsFrom(idx, a + b) == CallsFrom(idx, a) + CallsFrom(idx + |a|, b)
  {
  }

  lemma CallsWrap(idx: int, s: Text)
    ensures CallsFrom(ToU32(idx), s) == CallsFrom(idx, s)
  {
    forall k | 0 <= k < |s| ensures CallsFrom(ToU32(idx), s)[k] == CallsFrom(idx, s)[k] {
      WrapAdd(idx, k);
    }
  }

  lemma WrapAdd(a: int, b: int)
    ensures ToU32(ToU32(a) + b) == ToU32(a + b)
  {
  }

  /** A buffer after a run of calls of `_out_buffer`. */
  function BufferAfter(initial: Text, maxlen: nat, calls: seq<Call>): (r: Text)
    requires maxlen <= |initial|
    ensures |r| == |initial|
  {
    if calls == [] then initial
    else
      var b, c := BufferAfter(initial, maxlen, calls[..|calls| - 1]), calls[|calls| - 1];
      if c.idx < maxlen then b[c.idx := c.character] else b
  }

  /** The characters `_out_char` passes on: all but NUL. */
  function Visible(calls: seq<Call>): Text {
    if calls == [] then []
    else
      var v, c := Visible(calls[..|calls| - 1]), calls[|calls| - 1].character;
      if c == NUL then v else v + [c]
  }

  class Sink {
    const fct: OutFct
    const buffer: array?<cchar>
    const maxlen: u32
    const tty: Tty?
    ghost const buffer0: Text
    ghost const screen0: Screen
    ghost var calls: seq<Call>

    ghost function Footprint(): set<object> {
      {this} + (if fct == OutBuffer && buffer != null then {buffer} else {})
      + (if fct == OutChar && tty != null then {tty, tty.vga} else {})
    }

    ghost predicate Valid()
      reads Footprint()
    {
      match fct
      case OutNull => true
      case OutBuffer =>
        && buffer != null && maxlen <= buffer.Length == |buffer0|
        && buffer[..] == BufferAfter(buffer0, maxlen, calls)
      case OutChar =>
        && tty != null && tty.Valid() && screen0.Valid()
        && tty.Shows() == Run(screen0, Puts(Visible(calls)))
    }

    /** The arguments `out`, `buffer` and `maxlen` of `_vsnprintf`, which falls back
        to the null output when there is no buffer. */
    constructor (out: OutFct, buffer: array?<cchar>, maxlen: u32, tty: Tty?)
      requires out == OutBuffer && buffer != null ==> maxlen <= buffer.Length
      requires out == OutChar ==> tty != null && tty.Valid()
      ensures Valid() && calls == [] && this.buffer == buffer && this.maxlen == maxlen && this.tty == tty
      ensures fct == if buffer == null then OutNull else out
      ensures fct == OutBuffer ==> buffer0 == buffer[..]
      ensures fct == OutChar ==> screen0 == tty.Shows()
    {
      this.fct := if buffer == null then OutNull else out;
      this.buffer, this.maxlen, this.tty, calls := buffer, maxlen, tty, [];
      this.buffer0 := if buffer == null then [] else buffer[..];
      this.screen0 := if out == OutChar then tty.Shows() else Cleared(0);
    }

    /** One call of the output function. */
    method Out(character: cchar, idx: u32)
      requires Valid()
      modifies Footprint()
      ensures Valid() && calls == old(calls) + [Call(character, idx)]
    {
      ghost var was := calls;
      match fct {
        case OutNull =>
        case OutBuffer =>
          if idx < maxlen {
            buffer[idx] := character;
          }
        case OutChar =>
          if character != NUL {
            assert Puts(Visible(was) + [character])[..|Visible(was)|] == Puts(Visible(was));
            tty.Putc(character);
          }
      }
      calls := calls + [Call(character, idx)];
      assert calls[..|calls| - 1] == was;
    }

    /** Since the calls `start`, the text was written at consecutive indices from
        idx0 on, and idx is the index after it. */
    ghost predicate Emitted(start: seq<Call>, idx0: u32, text: Text, idx: u32)
      reads this
    {
      calls == start + CallsFrom(idx0, text) && idx == ToU32(idx0 + |text|)
    }

    /** The first character of a text, at index idx. */
    method First(character: cchar, idx: u32) returns (idx': u32)
      requires Valid()
      modifies Footprint()
      ensures Valid() && Emitted(old(calls), idx, [character], idx')
    {
      Out(character, idx);
      idx' := ToU32(idx + 1);
      assert ToU32(idx + 0) == idx && CallsFrom(idx, [character]) == [Call(character, idx)];
    }

    /** The next character, at the index after the text done so far. */
    method Next(character: cchar, idx: u32, ghost start: seq<Call>, ghost idx0: u32, ghost done: Text)
      returns (idx': u32)
      requires Valid() && Emitted(start, idx0, done, idx)
      modifies Footprint()
      ensures Valid() && Emitted(start, idx0, done + [character], idx')
    {
      Out(character, idx);
      idx' := ToU32(idx + 1);
      CallsMore(start, idx0, done, [character]);
    }

    /** Two texts in a row are one text. */
    lemma EmittedMore(start: seq<Call>, idx0: u32, done: Text, more: Text, idx: u32)
      requires Emitted(start + CallsFrom(idx0, done), ToU32(idx0 + |done|), more, idx)
      ensures Emitted(start, idx0, done + more, idx)
    {
      CallsMore(start, idx0, done, more);
    }
  }

  lemma CallsMore(start: seq<Call>, idx0: u32, done: Text, more: Text)
    ensures start + CallsFrom(idx0, done) + CallsFrom(ToU32(idx0 + |done|), more)
         == start + CallsFrom(idx0, done + more)
    ensures ToU32(ToU32(idx0 + |done|) + |more|) == ToU32(idx0 + |done + more|)
  {
    CallsWrap(idx0 + |done|, more);
    CallsConcat(idx0, done, more);
    WrapAdd(idx0 + |done|, |more|);
  }
}
