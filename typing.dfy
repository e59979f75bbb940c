/** The typing animation of the page header: a fixed list of phrases is typed
    one character per tick, held, deleted one character per tick, and the
    next phrase follows, cyclically. Each tick also chooses the delay before
    the next tick; the timer itself is not modelled, only the delay chosen. */
module TypingEffect {
  import opened JsStrings

  /** The phrases, in the order they are shown. */
  const Phrases: seq<string> := ["Frontend Developer", "Web Developer", "Backend Developer"]

  /** Delays in milliseconds. */
  const TypeDelay := 100
  const DeleteDelay := 50
  const FullPause := 2000
  const EmptyPause := 500

  /** The variables the tick closure captures, plus the text on display. */
  datatype Typing = Typing(textIndex: nat, charIndex: int, isDeleting: bool, typingSpeed: int, shown: string)

  /** Every phrase list the animation can run on: at least one phrase, none empty. */
  predicate WellFormed(texts: seq<string>) {
    |texts| > 0 && forall i :: 0 <= i < |texts| ==> |texts[i]| > 0
  }

  /** The state between ticks: while deleting at least one character is
      still shown, while typing at least one is still missing. */
  predicate Inv(texts: seq<string>, s: Typing) {
    s.textIndex < |texts| &&
    if s.isDeleting then 1 <= s.charIndex <= |texts[s.textIndex]|
    else 0 <= s.charIndex < |texts[s.textIndex]|
  }

  /** The captured variables as they are initialised, before the first tick. */
  function Initial(shown: string): Typing {
    Typing(0, 0, false, TypeDelay, shown)
  }

  /** One tick: show one more (or one fewer) character of the current phrase,
      turn round at either end of it, and choose the next delay. */
  function Step(texts: seq<string>, s: Typing): (t: Typing)
    requires s.textIndex < |texts|
    ensures t.textIndex < |texts|
  {
    var current := texts[s.textIndex];
    var shown := if s.isDeleting then Substring(current, 0, s.charIndex - 1) else Substring(current, 0, s.charIndex + 1);
    var charIndex := if s.isDeleting then s.charIndex - 1 else s.charIndex + 1;
    var speed := if s.isDeleting then DeleteDelay else TypeDelay;
    if !s.isDeleting && charIndex == |current| then
      Typing(s.textIndex, charIndex, true, FullPause, shown)
    else if s.isDeleting && charIndex == 0 then
      Typing((s.textIndex + 1) % |texts|, charIndex, false, EmptyPause, shown)
    else
      Typing(s.textIndex, charIndex, s.isDeleting, speed, shown)
  }

  /** `n` ticks in a row. */
  function Run(texts: seq<string>, s: Typing, n: nat): (t: Typing)
    requires s.textIndex < |texts|
    ensures t.textIndex < |texts|
    decreases n
  {
    if n == 0 then s else Run(texts, Step(texts, s), n - 1)
  }

  /** The state before the first tick satisfies the invariant. */
  lemma InitialInv(texts: seq<string>, shown: string)
    requires WellFormed(texts)
    ensures Inv(texts, Initial(shown))
  {
  }

  /** A tick keeps the invariant. */
  lemma StepKeepsInv(texts: seq<string>, s: Typing)
    requires WellFormed(texts) && Inv(texts, s)
    ensures Inv(texts, Step(texts, s))
  {
  }

  /** A tick moves the character index by exactly one, and the text on
      display is the prefix of the tick's phrase whose length is the new
      character index; it is also the prefix of the phrase the next tick will
      work on, since a phrase change happens only at the empty prefix. */
  lemma StepShowsPrefix(texts: seq<string>, s: Typing)
    requires WellFormed(texts) && Inv(texts, s)
    ensures var t := Step(texts, s);
      t.charIndex == (if s.isDeleting then s.charIndex - 1 else s.charIndex + 1) &&
      t.shown == texts[s.textIndex][..t.charIndex] &&
      t.shown == texts[t.textIndex][..t.charIndex]
  {
  }

  /** The direction turns exactly at the ends of the phrase, and the delay
      chosen is 2000 after the last character is typed, 500 after the last
      one is deleted, and otherwise 100 while typing and 50 while deleting. */
  lemma StepDelay(texts: seq<string>, s: Typing)
    requires WellFormed(texts) && Inv(texts, s)
    ensures var t := Step(texts, s);
      (!s.isDeleting && t.isDeleting <==> !s.isDeleting && t.charIndex == |texts[s.textIndex]|) &&
      (s.isDeleting && !t.isDeleting <==> s.isDeleting && t.charIndex == 0) &&
      t.typingSpeed == (if !s.isDeleting && t.isDeleting then FullPause
                        else if s.isDeleting && !t.isDeleting then EmptyPause
                        else if s.isDeleting then DeleteDelay
                        else TypeDelay)
  {
  }

  /** The phrase index changes only when a deletion empties the display, and
      then it moves to the next phrase modulo the number of phrases. */
  lemma StepPhraseIndex(texts: seq<string>, s: Typing)
    requires WellFormed(texts) && Inv(texts, s)
    ensures var t := Step(texts, s);
      t.textIndex == (if s.isDeleting && t.charIndex == 0 then (s.textIndex + 1) % |texts| else s.textIndex)
  {
  }

  /** Ticks compose. */
  lemma {:induction false} RunAdd(texts: seq<string>, s: Typing, m: nat, n: nat)
    requires s.textIndex < |texts|
    ensures Run(texts, s, m + n) == Run(texts, Run(texts, s, m), n)
    decreases m
  {
    if m > 0 {
      RunAdd(texts, Step(texts, s), m - 1, n);
    }
  }

  /** Typing from any point finishes the phrase in as many ticks as there are
      characters missing, then holds it for 2000 ms with deletion next. */
  lemma {:induction false} TypeOut(texts: seq<string>, s: Typing)
    requires Inv(texts, s) && !s.isDeleting
    ensures var phrase := texts[s.textIndex];
      Run(texts, s, |phrase| - s.charIndex) == Typing(s.textIndex, |phrase|, true, FullPause, phrase)
    decreases |texts[s.textIndex]| - s.charIndex
  {
    var phrase := texts[s.textIndex];
    var t := Step(texts, s);
    if s.charIndex + 1 == |phrase| {
      assert phrase[..|phrase|] == phrase;
    } else {
      TypeOut(texts, t);
    }
  }

  /** Deleting from any point empties the display in as many ticks as there
      are characters shown, then waits 500 ms before the next phrase. */
  lemma {:induction false} EraseAll(texts: seq<string>, s: Typing)
    requires Inv(texts, s) && s.isDeleting
    ensures Run(texts, s, s.charIndex) == Typing((s.textIndex + 1) % |texts|, 0, false, EmptyPause, "")
    decreases s.charIndex
  {
    var t := Step(texts, s);
    if s.charIndex > 1 {
      EraseAll(texts, t);
    }
  }

  /** From the start of a phrase, twice its length in ticks types it out,
      deletes it, and arrives at the start of the next phrase. */
  lemma PhraseCycle(texts: seq<string>, s: Typing)
    requires s.textIndex < |texts| && |texts[s.textIndex]| > 0 && s.charIndex == 0 && !s.isDeleting
    ensures Run(texts, s, |texts[s.textIndex]| + |texts[s.textIndex]|) == Typing((s.textIndex + 1) % |texts|, 0, false, EmptyPause, "")
  {
    var len := |texts[s.textIndex]|;
    var full := Run(texts, s, len);
    assert full == Typing(s.textIndex, len, true, FullPause, texts[s.textIndex]) by {
      TypeOut(texts, s);
    }
    calc {
      Run(texts, s, len + len);
      { RunAdd(texts, s, len, len); }
      Run(texts, full, len);
      { EraseAll(texts, full); }
      Typing((s.textIndex + 1) % |texts|, 0, false, EmptyPause, "");
    }
  }

  /** Ticks needed to go through `k` whole phrases starting with phrase `i`. */
  function CycleTicks(texts: seq<string>, i: nat, k: nat): nat
    requires |texts| > 0
  {
    if k == 0 then 0
    else
      var len := |texts[(i + k - 1) % |texts|]|;
      CycleTicks(texts, i, k - 1) + (len + len)
  }

  lemma {:induction false} ModSucc(a: nat, n: nat)
    requires n > 0
    ensures (a % n + 1) % n == (a + 1) % n
    decreases a
  {
    if a >= n {
      ModSucc(a - n, n);
      ModShift(a - n, n);
      ModShift(a + 1 - n, n);
    }
  }

  lemma ModShift(x: nat, n: nat)
    requires n > 0
    ensures (x + n) % n == x % n
  {
    ModUnique(x + n, x / n + 1, x % n, n);
  }

  lemma {:induction false} MulAtLeast(d: int, n: int)
    requires d >= 1 && n > 0
    ensures d * n >= n
    decreases d
  {
    if d > 1 {
      MulAtLeast(d - 1, n);
      assert d * n == (d - 1) * n + n;
    }
  }

  lemma ModUnique(y: int, q: int, r: int, n: int)
    requires n > 0 && 0 <= r < n && y == q * n + r
    ensures y % n == r
  {
    var q', r' := y / n, y % n;
    assert y == q' * n + r';
    assert q * n - q' * n == r' - r;
    assert (q - q') * n == q * n - q' * n;
    if q > q' {
      MulAtLeast(q - q', n);
    } else if q < q' {
      MulAtLeast(q' - q, n);
    }
  }

  /** The phrases are visited in list order, cyclically: after `k` whole
      phrases from the start of phrase `i`, the animation is at the start of
      phrase `(i + k) mod |texts|`. */
  lemma {:induction false} VisitsInOrder(texts: seq<string>, s: Typing, k: nat)
    requires WellFormed(texts) && s.textIndex < |texts| && s.charIndex == 0 && !s.isDeleting
    ensures var t := Run(texts, s, CycleTicks(texts, s.textIndex, k));
      t.textIndex == (s.textIndex + k) % |texts| && t.charIndex == 0 && !t.isDeleting
  {
    if k > 0 {
      var before := CycleTicks(texts, s.textIndex, k - 1);
      VisitsInOrder(texts, s, k - 1);
      var u := Run(texts, s, before);
      var len := |texts[u.textIndex]|;
      assert CycleTicks(texts, s.textIndex, k) == before + (len + len);
      CycleAfter(texts, s, before);
      ModSucc(s.textIndex + k - 1, |texts|);
    }
  }

  /** Once some ticks have reached the start of a phrase, the whole phrase
      follows. */
  lemma CycleAfter(texts: seq<string>, s: Typing, m: nat)
    requires s.textIndex < |texts|
    requires var u := Run(texts, s, m); |texts[u.textIndex]| > 0 && u.charIndex == 0 && !u.isDeleting
    ensures var u := Run(texts, s, m); var len := |texts[u.textIndex]|;
      Run(texts, s, m + (len + len)) == Typing((u.textIndex + 1) % |texts|, 0, false, EmptyPause, "")
  {
    var u := Run(texts, s, m);
    var len := |texts[u.textIndex]|;
    RunAdd(texts, s, m, len + len);
    PhraseCycle(texts, u);
  }

  /** The element the animation writes into, with the captured variables of
      its tick closure. */
  class Typewriter {
    const texts: seq<string>
    var textIndex: nat
    var charIndex: int
    var isDeleting: bool
    var typingSpeed: int
    /** The text content of the animated element. */
    var shown: string

    function State(): Typing
      reads this
    {
      Typing(textIndex, charIndex, isDeleting, typingSpeed, shown)
    }

    /** What a tick needs: a well-formed phrase list and the invariant. */
    ghost predicate Ready()
      reads this
    {
      WellFormed(texts) && Inv(texts, State())
    }

    /** After every tick, in addition, the element shows the prefix of the
        current phrase whose length is the character index. */
    ghost predicate Valid()
      reads this
    {
      Ready() && shown == texts[textIndex][..charIndex]
    }

    /** Sets up the captured variables and runs the first tick at once; the
        element's earlier text is overwritten by that tick. */
    constructor (initialText: string)
      ensures texts == Phrases
      ensures State() == Step(Phrases, Initial(initialText))
      ensures Valid()
    {
      texts := Phrases;
      textIndex, charIndex, isDeleting, typingSpeed, shown := 0, 0, false, TypeDelay, initialText;
      new;
      Tick();
    }

    /** One run of the tick closure. */
    method Tick()
      requires Ready()
      modifies this
      ensures State() == Step(texts, old(State()))
      ensures Valid()
    {
      StepKeepsInv(texts, State());
      StepShowsPrefix(texts, State());
      var currentText := texts[textIndex];
      if isDeleting {
        shown := Substring(currentText, 0, charIndex - 1);
        charIndex := charIndex - 1;
        typingSpeed := DeleteDelay;
      } else {
        shown := Substring(currentText, 0, charIndex + 1);
        charIndex := charIndex + 1;
        typingSpeed := TypeDelay;
      }
      if !isDeleting && charIndex == |currentText| {
        isDeleting := true;
        typingSpeed := FullPause;
      } else if isDeleting && charIndex == 0 {
        isDeleting := false;
        textIndex := (textIndex + 1) % |texts|;
        typingSpeed := EmptyPause;
      }
    }
  }
}
