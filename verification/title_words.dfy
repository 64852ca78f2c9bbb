/** The rotating word of the home title: a counter stepped modulo the word
    list by a repeating timer that runs fast for the first seconds and then
    switches, once and for good, to a slow period. */
module TitleWords {
  import opened Common

  const AnimatedWords: seq<string> := ["IDEAS", "STORY", "ART", "VISION"]

  /** `wordIndex` and `isFastPhase`. */
  datatype Title = Title(wordIndex: int, fastPhase: bool)

  const Initial: Title := Title(0, true)

  ghost predicate Inv(t: Title) {
    0 <= t.wordIndex < |AnimatedWords|
  }

  /** The interval callback: advance to the next word, cyclically. The phase
      only changes the interval's period, never the step. */
  function Tick(t: Title): (r: Title)
    ensures r.fastPhase == t.fastPhase
    ensures Inv(t) ==> Inv(r)
    ensures Inv(t) ==> (r.wordIndex == 0 <==> t.wordIndex == |AnimatedWords| - 1)
  {
    t.(wordIndex := (t.wordIndex + 1) % |AnimatedWords|)
  }

  /** The one-shot timeout that ends the fast phase; the word is kept. */
  function EndFastPhase(t: Title): (r: Title)
    ensures !r.fastPhase
    ensures r.wordIndex == t.wordIndex
  {
    t.(fastPhase := false)
  }

  /** The word the title shows (`animatedWords[wordIndex].text`). */
  function CurrentWord(t: Title): (w: string)
    requires Inv(t)
    ensures w in AnimatedWords
  {
    AnimatedWords[t.wordIndex]
  }

  /** `n` consecutive interval callbacks. */
  function Ticks(t: Title, n: nat): Title {
    if n == 0 then t else Tick(Ticks(t, n - 1))
  }

  /** After `n` callbacks the word index has moved `n` places round the list,
      and the phase is untouched. */
  lemma {:induction false} TicksAdvanceModulo(t: Title, n: nat)
    requires Inv(t)
    ensures Ticks(t, n).wordIndex == (t.wordIndex + n) % |AnimatedWords|
    ensures Ticks(t, n).fastPhase == t.fastPhase
  {
    var m := |AnimatedWords|;
    if n == 0 {
      ModOfDecomposition(t.wordIndex, m, 0, t.wordIndex);
    } else {
      TicksAdvanceModulo(t, n - 1);
      SuccMod(t.wordIndex + n - 1, m);
    }
  }

  /** Four callbacks bring the title back to the word it started from. */
  lemma FullCycleReturns(t: Title)
    requires Inv(t)
    ensures Ticks(t, |AnimatedWords|) == t
  {
    TicksAdvanceModulo(t, |AnimatedWords|);
    ModOfDecomposition(t.wordIndex + |AnimatedWords|, |AnimatedWords|, 1, t.wordIndex);
  }
}
