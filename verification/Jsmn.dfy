// The JSON tokenizer, as a step function on its state: read position, tokens
// allocated so far, and the token that owns the next one.  Strict mode, with
// parent links.  A string stands for the bytes of the input.
module Jsmn {

  datatype Kind = Undefined | Object | Array | String | Primitive

  /** `start` and `end` delimit the token in the text; an open container has `end == -1`. */
  datatype Token = Token(kind: Kind, start: int, end: int, size: nat, parent: int)

  datatype Error = NoMem | Inval | Part

  datatype State = State(pos: nat, toks: seq<Token>, super: int)

  datatype Outcome = Next(st: State) | Fail(error: Error)

  predicate IsOpen(t: Token) { t.start != -1 && t.end == -1 }

  predicate IsContainer(t: Token) { t.kind.Object? || t.kind.Array? }

  // ---------- scanning ----------

  datatype Scan = Found(at: nat) | Bad | Open

  predicate AtEnd(js: string, pos: nat) {
    pos >= |js| || js[pos] == '\0'
  }

  predicate IsHex(c: char) {
    '0' <= c <= '9' || 'A' <= c <= 'F' || 'a' <= c <= 'f'
  }

  predicate IsSimpleEscape(c: char) {
    c in "\"/\\bfrnt"
  }

  predicate IsSpace(c: char) {
    c == '\t' || c == '\r' || c == '\n' || c == ' '
  }

  predicate EndsPrimitive(c: char) {
    IsSpace(c) || c == ',' || c == ']' || c == '}'
  }

  predicate StartsPrimitive(c: char) {
    c == '-' || '0' <= c <= '9' || c == 't' || c == 'f' || c == 'n'
  }

  /** Past up to `k` hexadecimal digits; `Bad` at another character, but the end of the text is no error here. */
  function ScanHex(js: string, pos: nat, k: nat): (r: Scan)
    ensures r.Found? ==> pos <= r.at <= pos + k
    decreases k
  {
    if k == 0 || AtEnd(js, pos) then Found(pos)
    else if IsHex(js[pos]) then ScanHex(js, pos + 1, k - 1)
    else Bad
  }

  /** From inside a string to its closing quote. */
  function ScanString(js: string, pos: nat): (r: Scan)
    ensures r.Found? ==> pos <= r.at < |js| && js[r.at] == '\"'
    decreases |js| - pos
  {
    if AtEnd(js, pos) then Open
    else if js[pos] == '\"' then Found(pos)
    else if js[pos] == '\\' && pos + 1 < |js| then
      var e := js[pos + 1];
      if IsSimpleEscape(e) then ScanString(js, pos + 2)
      else if e == 'u' then
        var h := ScanHex(js, pos + 2, 4);
        if h.Bad? then Bad else ScanString(js, h.at)
      else Bad
    else ScanString(js, pos + 1)
  }

  /** To the character after a primitive. */
  function ScanPrimitive(js: string, pos: nat): (r: Scan)
    ensures r.Found? ==> pos <= r.at < |js|
    decreases |js| - pos
  {
    if AtEnd(js, pos) then Open
    else if EndsPrimitive(js[pos]) then Found(pos)
    else if js[pos] as int < 32 || js[pos] as int >= 127 then Bad
    else ScanPrimitive(js, pos + 1)
  }

  // ---------- tokens ----------

  /** Parents come before their children, so every walk towards the root ends. */
  predicate ParentsBefore(toks: seq<Token>) {
    forall i :: 0 <= i < |toks| ==> -1 <= toks[i].parent < i
  }

  predicate Sane(st: State) {
    ParentsBefore(st.toks) && -1 <= st.super < |st.toks|
  }

  /** One more child for token `i`; nothing to count at the top level. */
  function Grow(toks: seq<Token>, i: int): (r: seq<Token>)
    requires -1 <= i < |toks|
    ensures |r| == |toks|
    ensures forall j :: 0 <= j < |toks| ==> r[j] == if j == i then toks[j].(size := toks[j].size + 1) else toks[j]
  {
    if i == -1 then toks else toks[i := toks[i].(size := toks[i].size + 1)]
  }

  /** Allocate a token below `super`. */
  function Add(toks: seq<Token>, super: int, kind: Kind, start: int, end: int): (r: seq<Token>)
    requires -1 <= super < |toks|
    ensures |r| == |toks| + 1
  {
    Grow(toks, super) + [Token(kind, start, end, 0, super)]
  }

  datatype Walk = AtOpen(i: nat) | AtRoot(i: nat)

  /** Up the parent links from token `t`, to the first open container or to a token without parent. */
  function WalkUp(toks: seq<Token>, t: nat): (w: Walk)
    requires ParentsBefore(toks) && t < |toks|
    ensures w.i <= t
    ensures w.AtOpen? ==> IsOpen(toks[w.i])
    ensures w.AtRoot? ==> !IsOpen(toks[w.i]) && toks[w.i].parent == -1
    decreases t
  {
    if IsOpen(toks[t]) then AtOpen(t)
    else if toks[t].parent == -1 then AtRoot(t)
    else WalkUp(toks, toks[t].parent)
  }

  /** A closing bracket of the given kind. */
  function Close(st: State, kind: Kind): Outcome
    requires Sane(st)
  {
    if |st.toks| == 0 then Fail(Inval)
    else
      match WalkUp(st.toks, |st.toks| - 1)
      case AtOpen(i) =>
        if st.toks[i].kind != kind then Fail(Inval)
        else Next(State(st.pos + 1, st.toks[i := st.toks[i].(end := st.pos + 1)], st.toks[i].parent))
      case AtRoot(i) =>
        if st.toks[i].kind != kind || st.super == -1 then Fail(Inval)
        else Next(st.(pos := st.pos + 1))
  }

  /** In strict mode a primitive cannot be a key, nor a second value for a key. */
  predicate PrimitiveMisplaced(st: State)
    requires Sane(st)
  {
    st.super != -1 &&
    var t := st.toks[st.super];
    t.kind.Object? || (t.kind.String? && t.size != 0)
  }

  /** The character at the read position, with room for `cap` tokens. */
  function Step(js: string, st: State, cap: nat): (r: Outcome)
    requires Sane(st) && !AtEnd(js, st.pos)
    ensures r.Next? ==> Sane(r.st) && st.pos < r.st.pos <= |js| && |st.toks| <= |r.st.toks|
  {
    var c := js[st.pos];
    if c == '{' || c == '[' then
      if |st.toks| >= cap then Fail(NoMem)
      else Next(State(st.pos + 1,
                      Add(st.toks, st.super, if c == '{' then Object else Array, st.pos, -1), |st.toks|))
    else if c == '}' || c == ']' then
      Close(st, if c == '}' then Object else Array)
    else if c == '\"' then
      match ScanString(js, st.pos + 1)
      case Found(at) =>
        if |st.toks| >= cap then Fail(NoMem)
        else Next(State(at + 1, Add(st.toks, st.super, String, st.pos + 1, at), st.super))
      case Bad => Fail(Inval)
      case Open => Fail(Part)
    else if IsSpace(c) then Next(st.(pos := st.pos + 1))
    else if c == ':' then Next(st.(pos := st.pos + 1, super := |st.toks| - 1))
    else if c == ',' then
      Next(st.(pos := st.pos + 1,
               super := if st.super != -1 && !IsContainer(st.toks[st.super]) then st.toks[st.super].parent
                        else st.super))
    else if StartsPrimitive(c) then
      if PrimitiveMisplaced(st) then Fail(Inval)
      else
        match ScanPrimitive(js, st.pos)
        case Found(at) =>
          if |st.toks| >= cap then Fail(NoMem)
          else
            PrimitiveAdvances(js, st.pos);
            Next(State(at, Add(st.toks, st.super, Primitive, st.pos, at), st.super))
        case Bad => Fail(Inval)
        case Open => Fail(Part)
    else Fail(Inval)
  }

  lemma PrimitiveAdvances(js: string, pos: nat)
    requires !AtEnd(js, pos) && StartsPrimitive(js[pos])
    ensures ScanPrimitive(js, pos) == ScanPrimitive(js, pos + 1)
  {
  }

  lemma StringStep(js: string, st: State, cap: nat)
    requires Sane(st) && !AtEnd(js, st.pos) && js[st.pos] == '\"'
    ensures Step(js, st, cap)
         == match ScanString(js, st.pos + 1)
            case Found(at) =>
              if |st.toks| >= cap then Fail(NoMem)
              else Next(State(at + 1, Add(st.toks, st.super, String, st.pos + 1, at), st.super))
            case Bad => Fail(Inval)
            case Open => Fail(Part)
  {
  }

  lemma PrimitiveStep(js: string, st: State, cap: nat)
    requires Sane(st) && !AtEnd(js, st.pos) && StartsPrimitive(js[st.pos])
    ensures Step(js, st, cap)
         == if PrimitiveMisplaced(st) then Fail(Inval)
            else
              match ScanPrimitive(js, st.pos)
              case Found(at) =>
                if |st.toks| >= cap then Fail(NoMem)
                else Next(State(at, Add(st.toks, st.super, Primitive, st.pos, at), st.super))
              case Bad => Fail(Inval)
              case Open => Fail(Part)
  {
    PrimitiveAdvances(js, st.pos);
  }

  /** The whole loop, from a state on. */
  function Loop(js: string, st: State, cap: nat): (r: Outcome)
    requires Sane(st)
    ensures r.Next? ==> Sane(r.st) && AtEnd(js, r.st.pos)
    decreases |js| - st.pos
  {
    if AtEnd(js, st.pos) then Next(st)
    else
      match Step(js, st, cap)
      case Next(t) => Loop(js, t, cap)
      case Fail(e) => Fail(e)
  }

  const INIT: State := State(0, [], -1)

  /** The tokens of a text, or the reason there are none: every container must have been closed. */
  function Parse(js: string, cap: nat): Outcome {
    match Loop(js, INIT, cap)
    case Next(st) => if exists i :: 0 <= i < |st.toks| && IsOpen(st.toks[i]) then Fail(Part) else Next(st)
    case Fail(e) => Fail(e)
  }
}
