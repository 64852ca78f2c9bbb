/** The "decrypted text" reveal of the section headings. A 30 ms interval
    redraws the heading: positions below a slowly growing iteration counter
    show the real text, the others show random characters, and the interval
    stops itself once the counter reaches the text's length.

    The counter grows by a third per frame; here it is the integer `k` of
    frames drawn so far, so the source's `index < iteration` is `3 * index < k`
    and `iteration >= text.length` is `k >= 3 * |text|` in exact arithmetic.
    The browser's floating-point sum can stop one frame later, and for texts
    of 12 or more characters it reveals positions 11 to 18 one frame earlier.
    `Math.random()` is an oracle: every frame receives one value in `[0, 1)`
    per position. */
module Decrypt {

  /** The scrambling alphabet. */
  const Alphabet: string :=
    "ABCDEFGHIJKLMNOPQRSTUVWXYZabcdefghijklmnopqrstuvwxyz0123456789!@#$%^&*()"

  /** One draw per position, each in `[0, 1)` like `Math.random()`. */
  ghost predicate ValidNoise(text: string, noise: seq<real>) {
    && |noise| == |text|
    && forall i :: 0 <= i < |noise| ==> 0.0 <= noise[i] < 1.0
  }

  /** `chars[Math.floor(Math.random() * chars.length)]`. */
  function RandomChar(x: real): (c: char)
    requires 0.0 <= x < 1.0
    ensures c in Alphabet
  {
    var i := (x * |Alphabet| as real).Floor;
    Alphabet[i]
  }

  /** The string drawn by frame `k`. */
  function Frame(text: string, k: nat, noise: seq<real>): (f: string)
    requires ValidNoise(text, noise)
    ensures |f| == |text|
    ensures forall i :: 0 <= i < |text| && 3 * i < k ==> f[i] == text[i]
    ensures forall i :: 0 <= i < |text| && k <= 3 * i ==> f[i] in Alphabet
  {
    seq(|text|, i requires 0 <= i < |text| => if 3 * i < k then text[i] else RandomChar(noise[i]))
  }

  /** Once the counter has reached the length, a frame is the text itself,
      whatever the oracle says. */
  lemma FrameAtEndIsText(text: string, k: nat, noise: seq<real>)
    requires ValidNoise(text, noise)
    requires k >= 3 * |text|
    ensures Frame(text, k, noise) == text
  {
    var f := Frame(text, k, noise);
    assert forall i :: 0 <= i < |text| ==> f[i] == text[i];
  }

  /** Frames drawn so far, the displayed string, and whether the interval
      is still armed. */
  datatype Anim = Anim(k: nat, display: string, running: bool)

  /** The effect has just started: nothing drawn, interval armed. */
  const Start: Anim := Anim(0, "", true)

  /** One firing of the interval: draw frame `k`, disarm if the counter has
      reached the length, then advance the counter. A disarmed interval
      never fires, so it changes nothing. */
  function Step(text: string, a: Anim, noise: seq<real>): (r: Anim)
    requires ValidNoise(text, noise)
    ensures !a.running ==> r == a
    ensures a.running ==> r.k == a.k + 1 && |r.display| == |text|
    ensures a.running ==> forall i :: 0 <= i < |text| && 3 * i < a.k ==> r.display[i] == text[i]
    ensures a.running ==> forall i :: 0 <= i < |text| && a.k <= 3 * i ==> r.display[i] in Alphabet
    ensures a.running ==> (r.running <==> a.k < 3 * |text|)
  {
    if !a.running then a
    else Anim(a.k + 1, Frame(text, a.k, noise), a.k < 3 * |text|)
  }

  ghost predicate ValidNoises(text: string, noises: seq<seq<real>>) {
    forall j :: 0 <= j < |noises| ==> ValidNoise(text, noises[j])
  }

  /** Successive firings, each with its own oracle draws. */
  function Steps(text: string, a: Anim, noises: seq<seq<real>>): Anim
    requires ValidNoises(text, noises)
    decreases |noises|
  {
    if |noises| == 0 then a else Steps(text, Step(text, a, noises[0]), noises[1..])
  }

  /** Before the counter reaches `3 * |text|` the interval keeps running,
      one frame per firing. */
  lemma {:induction false} RunningUntilEnd(text: string, a: Anim, noises: seq<seq<real>>)
    requires ValidNoises(text, noises)
    requires a.running && a.k + |noises| <= 3 * |text|
    ensures Steps(text, a, noises).running
    ensures Steps(text, a, noises).k == a.k + |noises|
    decreases |noises|
  {
    if |noises| > 0 {
      RunningUntilEnd(text, Step(text, a, noises[0]), noises[1..]);
    }
  }

  /** From any running state, the firing that draws frame `3 * |text|` shows
      the text exactly and is the last one: the interval is disarmed. */
  lemma {:induction false} RevealCompletes(text: string, a: Anim, noises: seq<seq<real>>)
    requires ValidNoises(text, noises)
    requires a.running && a.k <= 3 * |text|
    requires |noises| == 3 * |text| - a.k + 1
    ensures Steps(text, a, noises) == Anim(3 * |text| + 1, text, false)
    decreases |noises|
  {
    var b := Step(text, a, noises[0]);
    if a.k == 3 * |text| {
      FrameAtEndIsText(text, a.k, noises[0]);
      assert Steps(text, b, noises[1..]) == b;
    } else {
      RevealCompletes(text, b, noises[1..]);
    }
  }

  /** A disarmed interval stays disarmed and the text stays put. */
  lemma {:induction false} StoppedIsFinal(text: string, a: Anim, noises: seq<seq<real>>)
    requires ValidNoises(text, noises)
    requires !a.running
    ensures Steps(text, a, noises) == a
    decreases |noises|
  {
    if |noises| > 0 {
      StoppedIsFinal(text, a, noises[1..]);
    }
  }

  /** The whole effect from its start: `3 * |text|` running firings, then the
      text in the clear with the interval disarmed. */
  lemma WholeReveal(text: string, noises: seq<seq<real>>)
    requires ValidNoises(text, noises)
    requires |noises| == 3 * |text| + 1
    ensures Steps(text, Start, noises) == Anim(3 * |text| + 1, text, false)
  {
    RevealCompletes(text, Start, noises);
  }
}
