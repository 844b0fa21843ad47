/** The adaptive LZW format shared by comp.c and decomp.c: its dictionary, the abstract
    encoder that comp.c refines and the abstract decoder that decomp.c refines. */
module LzwFormat {
  import opened Basics
  import opened Bits

  const HSIZE := 18013
  const INIT_BITS := 9
  const MAX_BITS := 14
  const MAX_CODE := 16384     // maxmaxcode: one past the largest code
  const MAX_ENTRIES := 16126  // MAX_CODE - FIRST
  const FIRST := 258
  const END := 257
  const CLEAR := 256
  const STACK_SIZE := 8000
  const MAGIC0 := 0x1f
  const MAGIC1 := 0x9e

  type Code = c: int | 0 <= c < MAX_CODE

  /** Dictionary entry number `i` is the string of code FIRST + i. */
  datatype Entry = Entry(prefix: Code, ch: byte)
  type Dict = seq<Entry>

  predicate Known(d: Dict, code: nat) {
    code < 256 || FIRST <= code < FIRST + |d|
  }

  /** Every entry extends a literal or an earlier entry. */
  predicate WfDict(d: Dict) {
    && |d| <= MAX_ENTRIES
    && forall i :: 0 <= i < |d| ==> Known(d[..i], d[i].prefix)
  }

  /** The byte string a code stands for. */
  function Str(d: Dict, code: nat): (s: seq<byte>)
    requires WfDict(d) && Known(d, code)
    ensures |s| >= 1
    decreases code
  {
    if code < 256 then [code]
    else Str(d, d[code - FIRST].prefix) + [d[code - FIRST].ch]
  }

  /** maxcode is a function of n_bits on both sides. */
  function MaxCode(nbits: nat): nat {
    if nbits == MAX_BITS then MAX_CODE else Pow2(nbits) - 1
  }

  /** The width after the check "free_ent > maxcode". */
  function Widen(nbits: nat, freeEnt: nat): nat {
    if freeEnt > MaxCode(nbits) then nbits + 1 else nbits
  }

  // ---------------------------------------------------------------- encoder

  /** `phrase` is the input matched so far, whose code is `ent`. */
  datatype Enc = Enc(dict: Dict, nbits: nat, ent: Code, phrase: seq<byte>)

  /** What the hash probe and the ratio test decided for one input byte. */
  datatype Choice = Hit(code: Code) | Miss | MissClear

  /** The probe key of a pair; the compressor can forget the entry with key 0. */
  function Key(ent: Code, c: byte): nat {
    c * MAX_CODE + ent
  }

  predicate Absent(e: Enc, c: byte) {
    Key(e.ent, c) != 0 ==> Entry(e.ent, c) !in e.dict
  }

  /** A hit must name the pair's own entry, a miss may happen only when the pair is
      absent (or has key 0), and the table is cleared only when full. */
  predicate ChoiceOk(e: Enc, c: byte, choice: Choice) {
    match choice
    case Hit(code) => FIRST <= code < FIRST + |e.dict| && e.dict[code - FIRST] == Entry(e.ent, c)
    case Miss => Absent(e, c)
    case MissClear => Absent(e, c) && |e.dict| == MAX_ENTRIES
  }

  function EncInit(first: byte): Enc {
    Enc([], INIT_BITS, first, [first])
  }

  function EncStep(e: Enc, c: byte, choice: Choice): Enc {
    match choice
    case Hit(code) => e.(ent := code, phrase := e.phrase + [c])
    case Miss =>
      Enc(if |e.dict| < MAX_ENTRIES then e.dict + [Entry(e.ent, c)] else e.dict,
          Widen(e.nbits, FIRST + |e.dict|), c, [c])
    case MissClear => Enc([], INIT_BITS, c, [c])
  }

  /** The bits put out for one input byte. */
  function EncBits(e: Enc, choice: Choice): seq<bool> {
    match choice
    case Hit(_) => []
    case Miss => BitsOf(e.ent, e.nbits)
    case MissClear => BitsOf(e.ent, e.nbits) + BitsOf(CLEAR, Widen(e.nbits, FIRST + |e.dict|))
  }

  /** The encoder after it has read all of `input`, one choice for every byte but the first. */
  function EncRun(input: seq<byte>, choices: seq<Choice>): Enc
    requires |input| == |choices| + 1
    decreases |choices|
  {
    if choices == [] then EncInit(input[0])
    else
      var n := |choices| - 1;
      EncStep(EncRun(input[..n + 1], choices[..n]), input[n + 1], choices[n])
  }

  function EncStream(input: seq<byte>, choices: seq<Choice>): seq<bool>
    requires |input| == |choices| + 1
    decreases |choices|
  {
    if choices == [] then []
    else
      var n := |choices| - 1;
      EncStream(input[..n + 1], choices[..n]) + EncBits(EncRun(input[..n + 1], choices[..n]), choices[n])
  }

  predicate ValidRun(input: seq<byte>, choices: seq<Choice>)
    requires |input| == |choices| + 1
    decreases |choices|
  {
    choices == [] ||
    var n := |choices| - 1;
    && ValidRun(input[..n + 1], choices[..n])
    && ChoiceOk(EncRun(input[..n + 1], choices[..n]), input[n + 1], choices[n])
  }

  /** The phrases put out before the pending one, in order. */
  function Emitted(input: seq<byte>, choices: seq<Choice>): seq<seq<byte>>
    requires |input| == |choices| + 1
    decreases |choices|
  {
    if choices == [] then []
    else
      var n := |choices| - 1;
      var before := Emitted(input[..n + 1], choices[..n]);
      if choices[n].Hit? then before else before + [EncRun(input[..n + 1], choices[..n]).phrase]
  }

  /** All phrases of the parse that the encoder makes of `input`. */
  function Phrases(input: seq<byte>, choices: seq<Choice>): seq<seq<byte>>
    requires |input| == |choices| + 1
  {
    Emitted(input, choices) + [EncRun(input, choices).phrase]
  }

  /** The complete code stream: the run, the pending code and END at the same width. */
  function FinalStream(input: seq<byte>, choices: seq<Choice>): seq<bool>
    requires |input| == |choices| + 1
  {
    var e := EncRun(input, choices);
    EncStream(input, choices) + BitsOf(e.ent, e.nbits) + BitsOf(END, e.nbits)
  }

  // ---------------------------------------------------------------- decoder

  datatype Phase = First | Main | AfterClear

  datatype Dec = Dec(
    phase: Phase,
    prefix: seq<Code>, suffix: seq<byte>,
    freeEnt: nat, nbits: nat, oldcode: Code, finchar: nat,
    out: seq<byte>)

  datatype Outcome =
    | Ok(out: seq<byte>)
    | BadMagic        // the program stores through address 1
    | BadBits         // likewise
    | NoFirstCode     // likewise: the stream has no data code
    | StackOverrun    // a string does not fit the 8000-byte de_stack

  predicate WfDec(d: Dec) {
    && |d.prefix| == HSIZE && |d.suffix| == HSIZE
    && END <= d.freeEnt <= MAX_CODE
    && INIT_BITS <= d.nbits <= MAX_BITS
    && d.freeEnt <= MaxCode(d.nbits)
  }

  /** Walk the prefix chain of `code`, pushing one byte per link onto a stack with `room`
      free bytes; the result is the string in forward order. */
  function Expand(prefix: seq<Code>, suffix: seq<byte>, code: Code, room: nat): (s: Option<seq<byte>>)
    requires |prefix| == HSIZE && |suffix| == HSIZE
    ensures s.Some? ==> |s.value| >= 1
    decreases room, code
  {
    if room == 0 then None
    else if code < 256 then Some([suffix[code]])
    else
      match Expand(prefix, suffix, prefix[code], room - 1)
      case None => None
      case Some(s) => Some(s + [suffix[code]])
  }

  /** The string of a received code, with the KwKwK case. */
  function CodeString(d: Dec, code: Code): (s: Option<seq<byte>>)
    requires WfDec(d)
    ensures s.Some? ==> |s.value| >= 1
  {
    if code >= d.freeEnt then
      match Expand(d.prefix, d.suffix, d.oldcode, STACK_SIZE - 1)
      case None => None
      case Some(s) => Some(s + [d.finchar % 256])
    else Expand(d.prefix, d.suffix, code, STACK_SIZE)
  }

  lemma WidenOk(nbits: nat, freeEnt: nat)
    requires INIT_BITS <= nbits <= MAX_BITS && freeEnt <= MAX_CODE && freeEnt <= MaxCode(nbits) + 1
    ensures nbits <= Widen(nbits, freeEnt) <= MAX_BITS
    ensures freeEnt <= MaxCode(Widen(nbits, freeEnt))
  {
    Pow2Values();
  }

  /** Take in one data code: None when the stack overruns. */
  function DecStep(d: Dec, code: Code): (r: Option<Dec>)
    requires WfDec(d)
    ensures r.Some? ==> WfDec(r.value)
  {
    if d.phase == First then
      Some(d.(phase := Main, out := d.out + [code % 256], oldcode := code, finchar := code))
    else
      match CodeString(d, code)
      case None => None
      case Some(s) =>
        var room := d.freeEnt < MAX_CODE;
        var fe := if room then d.freeEnt + 1 else d.freeEnt;
        WidenOk(d.nbits, fe);
        Some(Dec(Main,
                 if room then d.prefix[d.freeEnt := d.oldcode] else d.prefix,
                 if room then d.suffix[d.freeEnt := s[0]] else d.suffix,
                 fe, Widen(d.nbits, fe), code, s[0], d.out + s))
  }

  /** The tab_prefix array after a CLEAR: literals reset, the rest left over. */
  function ClearLiterals(prefix: seq<Code>): (p: seq<Code>)
    requires |prefix| == HSIZE
    ensures |p| == HSIZE
  {
    seq(256, _ => 0) + prefix[256..]
  }

  function DecClear(d: Dec): (r: Dec)
    requires WfDec(d)
    ensures WfDec(r)
  {
    Pow2Values();
    d.(phase := AfterClear, prefix := ClearLiterals(d.prefix), freeEnt := FIRST - 1, nbits := INIT_BITS)
  }

  /** Decode the remaining bits `rem`. */
  function DecRun(d: Dec, rem: seq<bool>): Outcome
    requires WfDec(d)
    decreases |rem|
  {
    if |rem| < d.nbits then
      if d.phase == First then NoFirstCode else Ok(d.out)
    else
      var code := ReadCode(d.nbits, rem);
      var rest := rem[d.nbits..];
      if code == END && d.phase == First then NoFirstCode
      else if code == END && d.phase == Main then Ok(d.out)
      else if code == CLEAR && d.phase == Main then DecRun(DecClear(d), rest)
      else
        match DecStep(d, code)
        case None => StackOverrun
        case Some(d') => DecRun(d', rest)
  }

  function ReadCode(nbits: nat, rem: seq<bool>): Code
    requires nbits <= MAX_BITS && nbits <= |rem|
  {
    ValBound(rem[..nbits]);
    Pow2Mono(nbits, MAX_BITS);
    Pow2Values();
    Val(rem[..nbits])
  }

  /** The tables before decoding: the decoder never clears what an earlier run left in them. */
  datatype Tables = Tables(prefix: seq<Code>, suffix: seq<byte>)

  predicate WfTables(t: Tables) {
    |t.prefix| == HSIZE && |t.suffix| == HSIZE
  }

  function Literals(): (s: seq<byte>)
    ensures |s| == 256 && forall i :: 0 <= i < 256 ==> s[i] == i
  {
    seq(256, i requires 0 <= i < 256 => i)
  }

  function DecInit(t: Tables): (d: Dec)
    requires WfTables(t)
    ensures WfDec(d)
  {
    Pow2Values();
    Dec(First, ClearLiterals(t.prefix), Literals() + t.suffix[256..], FIRST, INIT_BITS, 0, 0, [])
  }

  /** decompress(): what the decoder makes of a whole byte string. */
  function Decode(t: Tables, input: seq<byte>): Outcome
    requires WfTables(t)
  {
    if !(|input| >= 2 && input[0] == MAGIC0 && input[1] == MAGIC1) then BadMagic
    else if !(|input| >= 3 && input[2] == MAX_BITS) then BadBits
    else DecRun(DecInit(t), BytesBits(input[3..]))
  }
}
