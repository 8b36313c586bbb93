/** From `printf_` to the screen: libc/stdio.c on top of kernel/src/io/tty/tty.c. */
module EndToEnd {
  import opened Machine
  import opened Screens
  import opened Layouts
  import opened Terminal
  import opened Sinks
  import opened Engine
  import opened Truncation
  import Directives
  import Render

  /** The characters of a text that reach the screen. */
  function NonNul(text: Text): Text {
    if text == [] then []
    else if text[0] == NUL then NonNul(text[1..])
    else [text[0]] + NonNul(text[1..])
  }

  lemma {:induction false} NonNulConcat(a: Text, b: Text)
    ensures NonNul(a + b) == NonNul(a) + NonNul(b)
  {
    if a == [] {
      NothingFirst(a, b);
      NothingFirst(NonNul(a), NonNul(b));
    } else {
      var c, rest := a[0], a[1..];
      NonNulConcat(rest, b);
      NonNulCons(a, c, rest);
      Associative([c], rest, b);
      NonNulCons(a + b, c, rest + b);
      Associative([c], NonNul(rest), NonNul(b));
    }
  }

  lemma NonNulCons(s: Text, c: cchar, rest: Text)
    requires s == [c] + rest
    ensures NonNul(s) == if c == NUL then NonNul(rest) else [c] + NonNul(rest)
  {
    assert s[1..] == rest;
  }

  lemma {:induction false} VisibleText(idx: int, text: Text)
    ensures Visible(CallsFrom(idx, text)) == NonNul(text)
    decreases |text|
  {
    if text != [] {
      var n := |text| - 1;
      VisibleText(idx, text[..n]);
      assert CallsFrom(idx, text)[..n] == CallsFrom(idx, text[..n]);
      assert text == text[..n] + [text[n]];
      NonNulConcat(text[..n], [text[n]]);
      assert NonNul([text[n]]) == if text[n] == NUL then [] else [text[n]];
    }
  }

  /** The terminating NUL never reaches the screen. */
  lemma OnlyTextIsVisible(text: Text, maxlen: u32)
    ensures Visible(AllCalls(text, maxlen)) == NonNul(text)
  {
    VisibleText(0, text);
    assert AllCalls(text, maxlen)[..|text|] == CallsFrom(0, text);
  }

  lemma PutsConcat(a: Text, b: Text)
    ensures Puts(a + b) == Puts(a) + Puts(b)
  {
  }

  /** The length of a text, exactly below 2^31. */
  predicate LengthOrWrapped(length: int, text: Text) { length == |text| <==> |text| < TWO31 }

  /** `printf_` writes its text, less the NULs, and returns the length of all of it. */
  method PrintfShows(tty: Tty, format: Text, va: seq<Render.Arg>) returns (ret: int)
    requires tty.Valid() && Render.Callable(format, va)
    modifies tty, tty.vga
    ensures tty.Valid() && tty.Shows() == Run(old(tty.Shows()), Puts(NonNul(Render.FormattedText(format, va))))
    ensures LengthOrWrapped(ret, Render.FormattedText(format, va))
  {
    ghost var text := Render.FormattedText(format, va);
    ret := Printf(tty, format, va);
    OnlyTextIsVisible(text, 0xFFFF_FFFF);
    ReturnedLengthIff(|text|);
  }

  /** The screen after printing texts one after the other. */
  function AfterTexts(s: Screen, texts: seq<Text>): (r: Screen)
    requires s.Valid()
    ensures r.Valid()
  {
    if texts == [] then s
    else Run(AfterTexts(s, texts[..|texts| - 1]), Puts(NonNul(texts[|texts| - 1])))
  }

  function Flatten(texts: seq<Text>): Text {
    if texts == [] then [] else Flatten(texts[..|texts| - 1]) + texts[|texts| - 1]
  }

  lemma {:induction false} TextsAreOneText(s: Screen, texts: seq<Text>)
    requires s.Valid()
    ensures AfterTexts(s, texts) == Run(s, Puts(NonNul(Flatten(texts))))
  {
    if texts != [] {
      var n := |texts| - 1;
      var a, b := Flatten(texts[..n]), texts[n];
      TextsAreOneText(s, texts[..n]);
      NonNulConcat(a, b);
      PutsConcat(NonNul(a), NonNul(b));
      RunConcat(s, Puts(NonNul(a)), Puts(NonNul(b)));
    }
  }

  /** After any number of calls on a cleared screen, the cells are the last 25 rows of
      the layout of everything printed, and the cursor is behind its last character. */
  lemma SessionShowsLayout(color: u8, texts: seq<Text>)
    ensures AfterTexts(Cleared(color), texts) == Shown(color, Layout(NonNul(Flatten(texts))))
  {
    TextsAreOneText(Cleared(color), texts);
    ScreenShowsLayout(color, NonNul(Flatten(texts)));
  }

  /** A call of `printf_`. */
  datatype Job = Job(format: Text, va: seq<Render.Arg>)
  {
    predicate Callable() { Render.Callable(format, va) }

    predicate Prints(text: Text) { Callable() && text == Render.FormattedText(format, va) }

    function Text(): Text
      requires Callable()
    {
      Render.FormattedText(format, va)
    }
  }

  function Texts(jobs: seq<Job>): (texts: seq<Text>)
    requires forall i :: 0 <= i < |jobs| ==> jobs[i].Callable()
    ensures |texts| == |jobs| && forall i :: 0 <= i < |jobs| ==> texts[i] == jobs[i].Text()
  {
    seq(|jobs|, i requires 0 <= i < |jobs| => jobs[i].Text())
  }

  lemma OneMoreCall(s: Screen, texts: seq<Text>, i: nat)
    requires s.Valid() && i < |texts|
    ensures AfterTexts(s, texts[..i + 1]) == Run(AfterTexts(s, texts[..i]), Puts(NonNul(texts[i])))
  {
    assert texts[..i + 1][..i] == texts[..i];
  }

  /** What calls that print these texts return. */
  predicate Lengths(lengths: seq<int>, texts: seq<Text>) {
    |lengths| == |texts| && forall i :: 0 <= i < |texts| ==> LengthOrWrapped(lengths[i], texts[i])
  }

  lemma OneMoreLength(lengths: seq<int>, texts: seq<Text>, i: nat, length: int)
    requires i < |texts| && Lengths(lengths, texts[..i]) && LengthOrWrapped(length, texts[i])
    ensures Lengths(lengths + [length], texts[..i + 1])
  {
  }

  /** One call after another, each on the screen the last one left. */
  method PrintJobs(tty: Tty, jobs: seq<Job>, ghost texts: seq<Text>) returns (lengths: seq<int>)
    requires tty.Valid() && |texts| == |jobs|
    requires forall i :: 0 <= i < |jobs| ==> jobs[i].Prints(texts[i])
    modifies tty, tty.vga
    ensures tty.Valid() && tty.Shows() == AfterTexts(old(tty.Shows()), texts)
    ensures Lengths(lengths, texts)
  {
    ghost var before := tty.Shows();
    lengths := [];
    for i := 0 to |jobs|
      invariant tty.Valid() && tty.Shows() == AfterTexts(before, texts[..i])
      invariant Lengths(lengths, texts[..i])
    {
      assert jobs[i].Prints(texts[i]);
      var length := PrintfShows(tty, jobs[i].format, jobs[i].va);
      OneMoreCall(before, texts, i);
      OneMoreLength(lengths, texts, i, length);
      lengths := lengths + [length];
    }
    assert texts[..|jobs|] == texts;
  }

  /** Clearing the terminal and any number of calls: the cells are the last 25 rows of
      the layout of everything the calls printed, and each call returns the length of
      its text, NULs included, exactly below 2^31. */
  method PrintAll(tty: Tty, jobs: seq<Job>) returns (lengths: seq<int>)
    requires tty.Valid() && forall i :: 0 <= i < |jobs| ==> jobs[i].Callable()
    modifies tty, tty.vga
    ensures tty.Valid() && tty.Shows() == Shown(old(tty.color), Layout(NonNul(Flatten(Texts(jobs)))))
    ensures Lengths(lengths, Texts(jobs))
  {
    ghost var color, texts := tty.color, Texts(jobs);
    tty.Clear();
    lengths := PrintJobs(tty, jobs, texts);
    SessionShowsLayout(color, texts);
  }

  /** Printing two formats in a row shows what printing their concatenation shows. */
  lemma {:induction false} FormatsJoinOnScreen(s: Screen, a: Text, b: Text, args: seq<Render.Arg>)
    requires s.Valid() && NUL !in a && Directives.Parse(a).Some? && Render.Callable(a + b, args)
    ensures var args1 := Render.Rest(args, |Render.Needs(Directives.Parse(a).value)|);
      && Render.Callable(a, args) && Render.Callable(b, args1)
      && AfterTexts(s, [Render.FormattedText(a + b, args)])
      == AfterTexts(s, [Render.FormattedText(a, args), Render.FormattedText(b, args1)])
  {
    Render.FormatConcat(a, b, args);
    var args1 := Render.Rest(args, |Render.Needs(Directives.Parse(a).value)|);
    var t, u := Render.FormattedText(a, args), Render.FormattedText(b, args1);
    JoinTexts(s, t, u);
  }

  lemma {:induction false} JoinTexts(s: Screen, t: Text, u: Text)
    requires s.Valid()
    ensures AfterTexts(s, [t + u]) == AfterTexts(s, [t, u])
  {
    AfterOne(s, t + u);
    AfterOne(s, t);
    assert [t, u][..1] == [t];
    NonNulConcat(t, u);
    PutsConcat(NonNul(t), NonNul(u));
    RunConcat(s, Puts(NonNul(t)), Puts(NonNul(u)));
  }

  lemma AfterOne(s: Screen, t: Text)
    requires s.Valid()
    ensures AfterTexts(s, [t]) == Run(s, Puts(NonNul(t)))
  {
    assert [t][..0] == [];
  }
}
