/** `snprintf_` (libc/stdio.c) against section 7.21.6.5 of ISO C11: the buffer gets
    as much of the text as fits, always terminated, and the full length is returned. */
module Truncation {
  import opened Machine
  import opened Sinks
  import opened Engine
  import Render

  /** The buffer the standard asks for. */
  function Truncated(initial: Text, count: nat, text: Text): Text
    requires count <= |initial|
  {
    if count == 0 then initial
    else
      var k := Min(|text|, count - 1);
      text[..k] + [NUL] + initial[k + 1..]
  }

  /** Consecutive indices fill the buffer from its start and leave the rest alone. */
  lemma {:induction false} TextStored(initial: Text, maxlen: nat, text: Text)
    requires maxlen <= |initial| && |text| <= TWO32
    ensures BufferAfter(initial, maxlen, CallsFrom(0, text))
         == text[..Min(|text|, maxlen)] + initial[Min(|text|, maxlen)..]
    decreases |text|
  {
    if text == [] {
    } else {
      var n := |text| - 1;
      TextStored(initial, maxlen, text[..n]);
      assert CallsFrom(0, text)[..n] == CallsFrom(0, text[..n]);
      SmallIndex(n);
      assert CallsFrom(0, text)[n] == Call(text[n], n);
    }
  }

  lemma SmallIndex(n: nat)
    requires n < TWO32
    ensures ToU32(n) == n
  {
  }

  lemma LastCall(initial: Text, maxlen: nat, calls: seq<Call>, c: Call)
    requires maxlen <= |initial|
    ensures BufferAfter(initial, maxlen, calls + [c])
         == if c.idx < maxlen then BufferAfter(initial, maxlen, calls)[c.idx := c.character]
            else BufferAfter(initial, maxlen, calls)
  {
    assert (calls + [c])[..|calls|] == calls;
  }

  /** All calls of one formatting leave the truncated text, whatever the count. */
  lemma CallsTruncate(initial: Text, count: u32, text: Text)
    requires count <= |initial| && |text| < TWO32
    ensures BufferAfter(initial, count, AllCalls(text, count)) == Truncated(initial, count, text)
  {
    var k, idx := Min(|text|, count), TerminatorIndex(|text|, count);
    TextStored(initial, count, text);
    SmallIndex(|text|);
    LastCall(initial, count, CallsFrom(0, text), Call(NUL, idx));
    TerminatorStored(text[..k], initial, idx, k, count);
    assert count > 0 ==> text[..k][..idx] == text[..Min(|text|, count - 1)];
  }

  /** Storing the NUL behind a prefix that fits, or over its last character. */
  lemma TerminatorStored(prefix: Text, initial: Text, idx: nat, k: nat, count: nat)
    requires |prefix| == k <= count <= |initial| && (count > 0 ==> idx == if k < count then k else count - 1)
    ensures count > 0 ==> (prefix + initial[k..])[idx := NUL] == prefix[..idx] + [NUL] + initial[idx + 1..]
    ensures prefix + initial[k..] == initial || count > 0
  {
  }

  // ------------------------------------------------------------ where indices wrap

  /** Once index 0 has been used a second time its first character is gone. */
  lemma {:induction false} FirstCellOverwritten(initial: Text, maxlen: nat, text: Text)
    requires 0 < maxlen <= |initial| && |text| > TWO32
    requires forall i :: 0 < i < |text| ==> text[i] == 'b'
    ensures BufferAfter(initial, maxlen, CallsFrom(0, text))[0] == 'b'
    decreases |text|
  {
    var n := |text| - 1;
    assert CallsFrom(0, text)[..n] == CallsFrom(0, text[..n]);
    assert CallsFrom(0, text)[n] == Call('b', ToU32(n));
    if n > TWO32 {
      FirstCellOverwritten(initial, maxlen, text[..n]);
    }
  }

  lemma WrappedTextDiffers(n: nat, count: u32)
    requires n >= TWO32 && count >= 2
    ensures var text: Text := ['a'] + Chars('b', n - 1);
      var initial := Chars(NUL, count);
      BufferAfter(initial, count, AllCalls(text, count)) != Truncated(initial, count, text)
  {
    var text: Text := ['a'] + Chars('b', n - 1);
    var initial := Chars(NUL, count);
    var c := Call(NUL, TerminatorIndex(ToU32(n), count));
    LastCall(initial, count, CallsFrom(0, text), c);
    assert Truncated(initial, count, text)[0] == 'a';
    if n > TWO32 {
      FirstCellOverwritten(initial, count, text);
    }
  }

  ghost predicate TruncatesAll(n: nat, count: u32) {
    forall initial: Text, text: Text | |text| == n && count <= |initial| ::
      BufferAfter(initial, count, AllCalls(text, count)) == Truncated(initial, count, text)
  }

  /** Texts of n characters are truncated correctly into a buffer of `count` bytes if
      and only if the 32-bit index does not wrap or at most the NUL is stored. */
  lemma TruncatesIff(n: nat, count: u32)
    ensures TruncatesAll(n, count) <==> n < TWO32 || count <= 1
  {
    if n < TWO32 || count <= 1 {
      forall initial: Text, text: Text | |text| == n && count <= |initial|
        ensures BufferAfter(initial, count, AllCalls(text, count)) == Truncated(initial, count, text)
      {
        if n < TWO32 {
          CallsTruncate(initial, count, text);
        } else {
          AtMostTerminator(initial, count, text);
        }
      }
    } else {
      WrappedTextDiffers(n, count);
    }
  }

  lemma {:induction false} OnlyFirstCell(initial: Text, maxlen: nat, calls: seq<Call>)
    requires maxlen <= 1 && maxlen <= |initial|
    ensures BufferAfter(initial, maxlen, calls)[maxlen..] == initial[maxlen..]
    decreases |calls|
  {
    if calls != [] {
      OnlyFirstCell(initial, maxlen, calls[..|calls| - 1]);
    }
  }

  lemma AtMostTerminator(initial: Text, count: u32, text: Text)
    requires count <= 1 && count <= |initial|
    ensures BufferAfter(initial, count, AllCalls(text, count)) == Truncated(initial, count, text)
  {
    OnlyFirstCell(initial, count, AllCalls(text, count));
    LastCall(initial, count, CallsFrom(0, text), Call(NUL, TerminatorIndex(ToU32(|text|), count)));
    var r := BufferAfter(initial, count, AllCalls(text, count));
    if count == 0 {
      assert r == r[0..];
    } else {
      assert TerminatorIndex(ToU32(|text|), 1) == 0 && r[0] == NUL;
      assert r == [NUL] + r[1..] && text[..0] == [];
    }
  }

  /** The returned `int` is the length exactly for texts below 2^31 characters. */
  lemma ReturnedLengthIff(n: nat)
    ensures ToInt32(n) == n <==> n < TWO31
  {
  }

  /** The promise for every format, its arguments and every buffer: `Truncated`,
      or nothing at all without a buffer, and the length of the full text as far as an
      `int` holds it. */
  method SnprintfTruncates(buffer: array?<cchar>, count: u32, format: Text, va: seq<Render.Arg>) returns (ret: int)
    requires buffer != null ==> count <= buffer.Length
    requires Render.Callable(format, va)
    modifies if buffer != null then {buffer} else {}
    ensures var n := |Render.FormattedText(format, va)|;
      && (ret == n <==> n < TWO31)
      && (buffer != null && (n < TWO32 || count <= 1) ==>
            buffer[..] == Truncated(old(buffer[..]), count, Render.FormattedText(format, va)))
  {
    ghost var text := Render.FormattedText(format, va);
    if buffer != null {
      if |text| < TWO32 {
        CallsTruncate(buffer[..], count, text);
      } else if count <= 1 {
        AtMostTerminator(buffer[..], count, text);
      }
    }
    ReturnedLengthIff(|text|);
    ret := Snprintf(buffer, count, format, va);
  }
}
