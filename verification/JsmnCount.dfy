// Parsing takes two passes: the first, without a token array, only counts.
module JsmnCount {
  import opened Jsmn

  datatype Tally = Counted(n: nat) | Failed(error: Error)

  /** The counting pass from read position `pos` on, with `n` tokens seen. */
  function CountFrom(js: string, pos: nat, n: nat): (r: Tally)
    ensures r.Counted? ==> n <= r.n
    decreases |js| - pos
  {
    if AtEnd(js, pos) then Counted(n)
    else
      var c := js[pos];
      if c == '{' || c == '[' then CountFrom(js, pos + 1, n + 1)
      else if c == '\"' then
        match ScanString(js, pos + 1)
        case Found(at) => CountFrom(js, at + 1, n + 1)
        case Bad => Failed(Inval)
        case Open => Failed(Part)
      else if IsSpace(c) || c in "}]:," then CountFrom(js, pos + 1, n)
      else if StartsPrimitive(c) then
        PrimitiveAdvances(js, pos);
        match ScanPrimitive(js, pos)
        case Found(at) => CountFrom(js, at, n + 1)
        case Bad => Failed(Inval)
        case Open => Failed(Part)
      else Failed(Inval)
  }

  /** What a step of the second pass adds is what the first pass counted. */
  lemma CountStep(js: string, st: State, cap: nat)
    requires Sane(st) && !AtEnd(js, st.pos) && Step(js, st, cap).Next?
    ensures var t := Step(js, st, cap).st;
      CountFrom(js, st.pos, |st.toks|) == CountFrom(js, t.pos, |t.toks|)
  {
  }

  /** A step that runs out of tokens would have been counted beyond the capacity. */
  lemma CountFull(js: string, st: State, cap: nat)
    requires Sane(st) && !AtEnd(js, st.pos) && Step(js, st, cap) == Fail(NoMem)
    requires CountFrom(js, st.pos, |st.toks|).Counted?
    ensures CountFrom(js, st.pos, |st.toks|).n > cap
  {
  }

  lemma {:induction false} LoopWithinCount(js: string, st: State, cap: nat)
    requires Sane(st) && CountFrom(js, st.pos, |st.toks|).Counted?
    requires CountFrom(js, st.pos, |st.toks|).n <= cap
    ensures Loop(js, st, cap) != Fail(NoMem)
    ensures Loop(js, st, cap).Next? ==> |Loop(js, st, cap).st.toks| == CountFrom(js, st.pos, |st.toks|).n
    decreases |js| - st.pos
  {
    if AtEnd(js, st.pos) {
    } else {
      match Step(js, st, cap)
      case Next(t) =>
        CountStep(js, st, cap);
        LoopWithinCount(js, t, cap);
      case Fail(e) =>
        if e == NoMem { CountFull(js, st, cap); }
    }
  }

  /** An array with as many tokens as the first pass counted is always large enough; a parse that succeeds fills it. */
  lemma CountSuffices(js: string)
    requires CountFrom(js, 0, 0).Counted?
    ensures var n := CountFrom(js, 0, 0).n;
      Parse(js, n) != Fail(NoMem) && (Parse(js, n).Next? ==> |Parse(js, n).st.toks| == n)
  {
    LoopWithinCount(js, INIT, CountFrom(js, 0, 0).n);
  }

  /** Conversely, a parse that succeeds used as many tokens as the first pass counts. */
  lemma {:induction false} LoopCounts(js: string, st: State, cap: nat)
    requires Sane(st) && Loop(js, st, cap).Next?
    ensures CountFrom(js, st.pos, |st.toks|) == Counted(|Loop(js, st, cap).st.toks|)
    decreases |js| - st.pos
  {
    if AtEnd(js, st.pos) {
    } else {
      CountStep(js, st, cap);
      LoopCounts(js, Step(js, st, cap).st, cap);
    }
  }
}
