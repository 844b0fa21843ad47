/** The decoder follows the encoder: widths are equal before every code, the decoder's
    dictionary is the encoder's without its newest entry, and the output is the input. */
module LzwLockstep {
  import opened Basics
  import opened Bits
  import opened LzwFormat

  /** No width from 9 bits up to `nbits` but the last holds the code. */
  predicate LeastWidth(nbits: nat, code: nat) {
    INIT_BITS <= nbits <= MAX_BITS && code < Pow2(nbits) && (nbits == INIT_BITS || Pow2(nbits - 1) <= code)
  }

  /** What every reachable encoder state satisfies: the width is the least that holds the newest code. */
  ghost predicate WfEnc(e: Enc) {
    && WfDict(e.dict)
    && Known(e.dict, e.ent)
    && Str(e.dict, e.ent) == e.phrase
    && LeastWidth(e.nbits, FIRST + |e.dict| - 1)
  }

  /** Tables hold the dictionary's entries for all codes below `limit`. */
  ghost predicate Agree(d: Dec, dict: Dict, limit: nat)
    requires WfDec(d) && limit <= FIRST + |dict| && limit <= MAX_CODE
  {
    && (forall k :: 0 <= k < 256 ==> d.suffix[k] == k)
    && (forall k :: FIRST <= k < limit ==>
          d.prefix[k] == dict[k - FIRST].prefix && d.suffix[k] == dict[k - FIRST].ch)
  }

  /** The lockstep relation between the two sides, between two codes. */
  ghost predicate Sync(e: Enc, d: Dec) {
    && WfEnc(e) && WfDec(d)
    && d.nbits == e.nbits
    && match d.phase
       case First => e.dict == [] && d.freeEnt == FIRST && e.nbits == INIT_BITS && Agree(d, [], FIRST)
                     && e.ent < 256
       case AfterClear => e.dict == [] && d.freeEnt == FIRST - 1 && e.nbits == INIT_BITS && Agree(d, [], FIRST)
                          && e.ent < 256
       case Main => Full(e, d) || Behind(e, d)
  }

  /** The table is full on both sides. */
  ghost predicate Full(e: Enc, d: Dec)
    requires WfEnc(e) && WfDec(d)
  {
    |e.dict| == MAX_ENTRIES && d.freeEnt == MAX_CODE && Agree(d, e.dict, MAX_CODE)
  }

  /** The decoder lacks exactly the encoder's newest entry, and knows its prefix. */
  ghost predicate Behind(e: Enc, d: Dec)
    requires WfEnc(e) && WfDec(d)
  {
    && |e.dict| >= 1
    && d.freeEnt == FIRST + |e.dict| - 1
    && Agree(d, e.dict, d.freeEnt)
    && e.dict[|e.dict| - 1] == Entry(d.oldcode, e.phrase[0])
    && d.finchar == Str(e.dict, d.oldcode)[0]
  }

  // ------------------------------------------------------------ dictionaries

  lemma {:induction false} StrExtend(d: Dict, x: Entry, code: nat)
    requires WfDict(d) && WfDict(d + [x]) && Known(d, code)
    ensures Known(d + [x], code) && Str(d + [x], code) == Str(d, code)
    decreases code
  {
    if code >= 256 {
      assert (d + [x])[code - FIRST] == d[code - FIRST];
      StrExtend(d, x, d[code - FIRST].prefix);
    }
  }

  lemma {:induction false} WfExtend(d: Dict, x: Entry)
    requires WfDict(d) && |d| < MAX_ENTRIES && Known(d, x.prefix)
    ensures WfDict(d + [x])
  {
    forall i | 0 <= i < |d + [x]|
      ensures Known((d + [x])[..i], (d + [x])[i].prefix)
    {
      if i < |d| {
        assert (d + [x])[..i] == d[..i];
      } else {
        assert (d + [x])[..i] == d;
      }
    }
  }

  lemma {:induction false} ExpandIsStr(d: Dec, dict: Dict, limit: nat, code: Code, room: nat)
    requires WfDec(d) && WfDict(dict) && limit <= FIRST + |dict| && limit <= MAX_CODE
    requires Agree(d, dict, limit)
    requires Known(dict, code) && (code < 256 || code < limit)
    ensures Expand(d.prefix, d.suffix, code, room) ==
            if |Str(dict, code)| <= room then Some(Str(dict, code)) else None
    decreases code
  {
    if code >= 256 && room > 0 {
      var p := dict[code - FIRST].prefix;
      assert d.prefix[code] == p;
      ExpandIsStr(d, dict, limit, p, room - 1);
      assert Str(dict, code) == Str(dict, p) + [dict[code - FIRST].ch];
    }
  }

  // ------------------------------------------------------------ one code

  /** The received code stands for the encoder's phrase, KwKwK included. */
  lemma {:induction false} ReceivedString(e: Enc, d: Dec)
    requires Sync(e, d) && d.phase != First
    ensures e.ent < MAX_CODE
    ensures CodeString(d, e.ent) == if |e.phrase| <= STACK_SIZE then Some(e.phrase) else None
  {
    if d.phase == Main && e.ent >= d.freeEnt {
      var n := |e.dict| - 1;
      assert e.ent == FIRST + n;
      assert Known(e.dict[..n], d.oldcode);
      assert e.phrase == Str(e.dict, d.oldcode) + [e.phrase[0]];
      assert e.phrase[0] == Str(e.dict, d.oldcode)[0];
      ExpandIsStr(d, e.dict, d.freeEnt, d.oldcode, STACK_SIZE - 1);
    } else if d.phase == Main {
      ExpandIsStr(d, e.dict, d.freeEnt, e.ent, STACK_SIZE);
    } else {
      ExpandIsStr(d, [], FIRST, e.ent, STACK_SIZE);
    }
  }

  /** In any file, a code that the table does not hold stands for the last string with its own first byte added,
      whichever code it is; a stack too small for that stops the decoder. */
  lemma UnknownCode(d: Dec, code: Code)
    requires WfDec(d) && d.phase != First && code >= d.freeEnt
    ensures DecStep(d, code).Some? <==> Expand(d.prefix, d.suffix, d.oldcode, STACK_SIZE - 1).Some?
    ensures DecStep(d, code).Some? ==>
      DecStep(d, code).value.out ==
      d.out + Expand(d.prefix, d.suffix, d.oldcode, STACK_SIZE - 1).value + [d.finchar % 256]
  {
    if DecStep(d, code).Some? {
      AppendAssoc(d.out, Expand(d.prefix, d.suffix, d.oldcode, STACK_SIZE - 1).value, [d.finchar % 256]);
    }
  }

  /** The decoder has caught up: it knows every entry made before the code `e.ent`. */
  ghost predicate CaughtUp(e: Enc, d: Dec, d': Dec)
    requires WfEnc(e)
  {
    && WfDec(d')
    && d'.phase == Main
    && d'.freeEnt == FIRST + |e.dict|
    && d'.nbits == Widen(e.nbits, FIRST + |e.dict|)
    && Agree(d', e.dict, d'.freeEnt)
    && d'.oldcode == e.ent
    && d'.finchar == e.phrase[0]
    && d'.out == d.out + e.phrase
  }

  lemma {:induction false} Receive(e: Enc, d: Dec)
    requires Sync(e, d) && |e.phrase| <= STACK_SIZE
    ensures e.ent < MAX_CODE
    ensures DecStep(d, e.ent).Some? && CaughtUp(e, d, DecStep(d, e.ent).value)
  {
    if d.phase == First {
      assert e.phrase == [e.ent];
      Pow2Values();
    } else {
      ReceivedString(e, d);
      if d.phase == Main && Behind(e, d) {
        ReceiveBehind(e, d);
      } else {
        Pow2Values();
      }
    }
  }

  lemma {:induction false} ReceiveBehind(e: Enc, d: Dec)
    requires Sync(e, d) && d.phase == Main && Behind(e, d) && e.ent < MAX_CODE
    requires CodeString(d, e.ent) == Some(e.phrase)
    ensures DecStep(d, e.ent).Some? && CaughtUp(e, d, DecStep(d, e.ent).value)
  {
    var d' := DecStep(d, e.ent).value;
    forall k | FIRST <= k < d'.freeEnt
      ensures d'.prefix[k] == e.dict[k - FIRST].prefix && d'.suffix[k] == e.dict[k - FIRST].ch
    {
      if k == d.freeEnt {
        assert e.dict[k - FIRST] == Entry(d.oldcode, e.phrase[0]);
      }
    }
  }

  /** The encoder's own step keeps its invariant: every code is put out in the least width that holds the newest. */
  lemma {:induction false} StepWf(e: Enc, c: byte, choice: Choice)
    requires WfEnc(e) && ChoiceOk(e, c, choice)
    ensures WfEnc(EncStep(e, c, choice))
  {
    Pow2Values();
    match choice
    case Hit(code) =>
    case Miss =>
      var x := Entry(e.ent, c);
      if |e.dict| < MAX_ENTRIES {
        WfExtend(e.dict, x);
        WidenFits(e.nbits, FIRST + |e.dict|);
      }
    case MissClear =>
  }

  /** Widening is never early and never late. */
  lemma {:induction false} WidenFits(nbits: nat, freeEnt: nat)
    requires 0 < freeEnt < MAX_CODE && LeastWidth(nbits, freeEnt - 1)
    ensures LeastWidth(Widen(nbits, freeEnt), freeEnt)
  {
    Pow2Values();
  }

  lemma {:induction false} SyncAfterMiss(e: Enc, d: Dec, c: byte)
    requires Sync(e, d) && |e.phrase| <= STACK_SIZE && ChoiceOk(e, c, Miss)
    ensures e.ent < MAX_CODE && DecStep(d, e.ent).Some?
    ensures Sync(EncStep(e, c, Miss), DecStep(d, e.ent).value)
    ensures DecStep(d, e.ent).value.out == d.out + e.phrase
  {
    Receive(e, d);
    StepWf(e, c, Miss);
    var e', d' := EncStep(e, c, Miss), DecStep(d, e.ent).value;
    if |e.dict| < MAX_ENTRIES {
      StrExtend(e.dict, Entry(e.ent, c), e.ent);
      assert forall i :: 0 <= i < |e.dict| ==> e'.dict[i] == e.dict[i];
      assert Behind(e', d');
    } else {
      assert Full(e', d');
    }
  }

  lemma {:induction false} SyncAfterClear(e: Enc, d: Dec, c: byte)
    requires Sync(e, d) && |e.phrase| <= STACK_SIZE && ChoiceOk(e, c, MissClear)
    ensures e.ent < MAX_CODE && DecStep(d, e.ent).Some?
    ensures DecStep(d, e.ent).value.phase == Main
    ensures DecStep(d, e.ent).value.nbits == Widen(e.nbits, FIRST + |e.dict|)
    ensures Sync(EncStep(e, c, MissClear), DecClear(DecStep(d, e.ent).value))
    ensures DecStep(d, e.ent).value.out == d.out + e.phrase
  {
    Receive(e, d);
    StepWf(e, c, MissClear);
  }

  // ------------------------------------------------------------ bits to codes

  /** Decoding `d` on `stream + rest` goes on as decoding `d'` on `rest`, for every `rest`. */
  ghost predicate Reaches(d: Dec, stream: seq<bool>, d': Dec) {
    && WfDec(d) && WfDec(d')
    && forall rest: seq<bool> :: DecRun(d, stream + rest) == DecRun(d', rest)
  }

  ghost predicate Overruns(d: Dec, stream: seq<bool>) {
    && WfDec(d)
    && forall rest: seq<bool> :: DecRun(d, stream + rest) == StackOverrun
  }

  lemma {:induction false} ReadsBack(code: nat, nbits: nat, rest: seq<bool>)
    requires nbits <= MAX_BITS && code < Pow2(nbits)
    ensures code < MAX_CODE
    ensures ReadCode(nbits, BitsOf(code, nbits) + rest) == code
    ensures (BitsOf(code, nbits) + rest)[nbits..] == rest
  {
    Pow2Mono(nbits, MAX_BITS);
    Pow2Values();
    assert (BitsOf(code, nbits) + rest)[..nbits] == BitsOf(code, nbits);
    ValOfBits(code, nbits);
  }

  /** Reading one data code; right after CLEAR every code is one. */
  lemma {:induction false} RunData(d: Dec, code: nat, rest: seq<bool>)
    requires WfDec(d) && code < Pow2(d.nbits)
    requires d.phase == AfterClear || (code != END && code != CLEAR)
    ensures code < MAX_CODE
    ensures DecRun(d, BitsOf(code, d.nbits) + rest) ==
            match DecStep(d, code) case None => StackOverrun case Some(d') => DecRun(d', rest)
  {
    ReadsBack(code, d.nbits, rest);
  }

  lemma {:induction false} RunClear(d: Dec, rest: seq<bool>)
    requires WfDec(d) && d.phase == Main
    ensures DecRun(d, BitsOf(CLEAR, d.nbits) + rest) == DecRun(DecClear(d), rest)
  {
    Pow2Values();
    Pow2Mono(INIT_BITS, d.nbits);
    ReadsBack(CLEAR, d.nbits, rest);
  }

  lemma {:induction false} ReachData(d0: Dec, stream: seq<bool>, d: Dec, code: nat)
    requires Reaches(d0, stream, d)
    requires code < Pow2(d.nbits) && code != END && code != CLEAR
    ensures code < MAX_CODE
    ensures match DecStep(d, code)
            case None => Overruns(d0, stream + BitsOf(code, d.nbits))
            case Some(d') => Reaches(d0, stream + BitsOf(code, d.nbits), d')
  {
    var b := BitsOf(code, d.nbits);
    RunData(d, code, []);
    forall rest: seq<bool>
      ensures DecRun(d0, stream + b + rest) ==
              match DecStep(d, code) case None => StackOverrun case Some(d') => DecRun(d', rest)
    {
      AppendAssoc(stream, b, rest);
      RunData(d, code, rest);
    }
  }

  lemma {:induction false} ReachClear(d0: Dec, stream: seq<bool>, d: Dec)
    requires Reaches(d0, stream, d) && d.phase == Main
    ensures Reaches(d0, stream + BitsOf(CLEAR, d.nbits), DecClear(d))
  {
    var b := BitsOf(CLEAR, d.nbits);
    forall rest: seq<bool>
      ensures DecRun(d0, stream + b + rest) == DecRun(DecClear(d), rest)
    {
      AppendAssoc(stream, b, rest);
      RunClear(d, rest);
    }
  }

  lemma {:induction false} OverrunsLonger(d: Dec, stream: seq<bool>, more: seq<bool>)
    requires Overruns(d, stream)
    ensures Overruns(d, stream + more)
  {
    forall rest: seq<bool>
      ensures DecRun(d, stream + more + rest) == StackOverrun
    {
      AppendAssoc(stream, more, rest);
    }
  }

  // ------------------------------------------------------------ whole runs

  ghost predicate AllFit(phrases: seq<seq<byte>>) {
    forall i :: 0 <= i < |phrases| ==> |phrases[i]| <= STACK_SIZE
  }

  /** The state of the decoder when the encoder has read `input`: either a string did not
      fit the stack, or the two sides are in step. */
  ghost predicate InStep(t: Tables, input: seq<byte>, choices: seq<Choice>, d: Dec)
    requires WfTables(t) && |input| == |choices| + 1
  {
    var e := EncRun(input, choices);
    if AllFit(Emitted(input, choices)) then
      && Reaches(DecInit(t), EncStream(input, choices), d)
      && Sync(e, d)
      && d.out + e.phrase == input
    else
      Overruns(DecInit(t), EncStream(input, choices)) && WfEnc(e)
  }

  lemma {:induction false} SyncAfterHit(e: Enc, d: Dec, c: byte, choice: Choice)
    requires Sync(e, d) && choice.Hit? && ChoiceOk(e, c, choice)
    ensures Sync(EncStep(e, c, choice), d)
  {
    StepWf(e, c, choice);
    assert (e.phrase + [c])[0] == e.phrase[0];
  }

  lemma {:induction false} HitStep(t: Tables, input: seq<byte>, choices: seq<Choice>, d: Dec, c: byte, choice: Choice)
    requires WfTables(t) && |input| == |choices| + 1
    requires AllFit(Emitted(input, choices)) && InStep(t, input, choices, d)
    requires choice.Hit? && ChoiceOk(EncRun(input, choices), c, choice)
    ensures InStep(t, input + [c], choices + [choice], d)
  {
    var e, stream := EncRun(input, choices), EncStream(input, choices);
    RunSnoc(input, choices, c, choice);
    SyncAfterHit(e, d, c, choice);
    assert stream + EncBits(e, choice) == stream;
    AppendAssoc(d.out, e.phrase, [c]);
  }

  /** A code that does not fit its stack stops the decoder; any other code keeps it in step. */
  lemma {:induction false} MissStep(t: Tables, input: seq<byte>, choices: seq<Choice>, d: Dec, c: byte)
    returns (d': Dec)
    requires WfTables(t) && |input| == |choices| + 1
    requires AllFit(Emitted(input, choices)) && InStep(t, input, choices, d)
    requires ChoiceOk(EncRun(input, choices), c, Miss)
    ensures InStep(t, input + [c], choices + [Miss], d')
  {
    var e, stream := EncRun(input, choices), EncStream(input, choices);
    RunSnoc(input, choices, c, Miss);
    StepWf(e, c, Miss);
    EmittedFit(input, choices, e);
    ReachData(DecInit(t), stream, d, e.ent);
    d' := d;
    if |e.phrase| <= STACK_SIZE {
      SyncAfterMiss(e, d, c);
      d' := DecStep(d, e.ent).value;
    } else {
      ReceivedTooLong(e, d);
    }
  }

  lemma {:induction false} ClearStep(t: Tables, input: seq<byte>, choices: seq<Choice>, d: Dec, c: byte)
    returns (d': Dec)
    requires WfTables(t) && |input| == |choices| + 1
    requires AllFit(Emitted(input, choices)) && InStep(t, input, choices, d)
    requires ChoiceOk(EncRun(input, choices), c, MissClear)
    ensures InStep(t, input + [c], choices + [MissClear], d')
  {
    var e, stream := EncRun(input, choices), EncStream(input, choices);
    RunSnoc(input, choices, c, MissClear);
    StepWf(e, c, MissClear);
    EmittedFit(input, choices, e);
    ReachData(DecInit(t), stream, d, e.ent);
    var b, clear := BitsOf(e.ent, e.nbits), BitsOf(CLEAR, Widen(e.nbits, FIRST + |e.dict|));
    AppendAssoc(stream, b, clear);
    d' := d;
    if |e.phrase| <= STACK_SIZE {
      SyncAfterClear(e, d, c);
      ReachClear(DecInit(t), stream + b, DecStep(d, e.ent).value);
      d' := DecClear(DecStep(d, e.ent).value);
    } else {
      ReceivedTooLong(e, d);
      OverrunsLonger(DecInit(t), stream + b, clear);
    }
  }

  lemma {:induction false} ReceivedTooLong(e: Enc, d: Dec)
    requires Sync(e, d) && |e.phrase| > STACK_SIZE
    ensures e.ent < MAX_CODE && DecStep(d, e.ent) == None
  {
    if d.phase != First {
      ReceivedString(e, d);
    }
  }

  lemma {:induction false} EmittedFit(input: seq<byte>, choices: seq<Choice>, e: Enc)
    requires |input| == |choices| + 1
    ensures AllFit(Emitted(input, choices) + [e.phrase]) <==>
            AllFit(Emitted(input, choices)) && |e.phrase| <= STACK_SIZE
  {
    var s := Emitted(input, choices);
    assert (s + [e.phrase])[|s|] == e.phrase;
    assert forall i :: 0 <= i < |s| ==> (s + [e.phrase])[i] == s[i];
  }

  lemma {:induction false} RunSnoc(input: seq<byte>, choices: seq<Choice>, c: byte, choice: Choice)
    requires |input| == |choices| + 1
    ensures EncRun(input + [c], choices + [choice]) == EncStep(EncRun(input, choices), c, choice)
    ensures EncStream(input + [c], choices + [choice]) ==
            EncStream(input, choices) + EncBits(EncRun(input, choices), choice)
    ensures ValidRun(input + [c], choices + [choice]) <==>
            ValidRun(input, choices) && ChoiceOk(EncRun(input, choices), c, choice)
    ensures Emitted(input + [c], choices + [choice]) ==
            if choice.Hit? then Emitted(input, choices)
            else Emitted(input, choices) + [EncRun(input, choices).phrase]
  {
    var n := |choices|;
    assert (input + [c])[..n + 1] == input;
    assert (choices + [choice])[..n] == choices;
  }

  /** For every run the compressor can make, and whatever the decoder's tables held. */
  lemma {:induction false} Lockstep(t: Tables, input: seq<byte>, choices: seq<Choice>) returns (d: Dec)
    requires WfTables(t) && |input| == |choices| + 1 && ValidRun(input, choices)
    ensures InStep(t, input, choices, d)
    decreases |choices|
  {
    if choices == [] {
      d := DecInit(t);
      InStepAtStart(t, input, choices);
    } else {
      var n := |choices| - 1;
      var input0, choices0 := input[..n + 1], choices[..n];
      assert input == input0 + [input[n + 1]] && choices == choices0 + [choices[n]];
      RunSnoc(input0, choices0, input[n + 1], choices[n]);
      var d0 := Lockstep(t, input0, choices0);
      d := OneStep(t, input0, choices0, d0, input[n + 1], choices[n]);
    }
  }

  lemma {:induction false} InStepAtStart(t: Tables, input: seq<byte>, choices: seq<Choice>)
    requires WfTables(t) && |input| == 1 && choices == []
    ensures InStep(t, input, choices, DecInit(t))
  {
    assert forall rest: seq<bool> :: [] + rest == rest;
    Pow2Values();
    assert EncRun(input, choices) == EncInit(input[0]);
    assert input == [input[0]];
  }

  lemma {:induction false} OneStep(t: Tables, input: seq<byte>, choices: seq<Choice>, d: Dec, c: byte, choice: Choice)
    returns (d': Dec)
    requires WfTables(t) && |input| == |choices| + 1 && InStep(t, input, choices, d)
    requires ChoiceOk(EncRun(input, choices), c, choice)
    ensures InStep(t, input + [c], choices + [choice], d')
  {
    d' := d;
    if AllFit(Emitted(input, choices)) {
      match choice
      case Hit(_) => HitStep(t, input, choices, d, c, choice);
      case Miss => d' := MissStep(t, input, choices, d, c);
      case MissClear => d' := ClearStep(t, input, choices, d, c);
    } else {
      OverrunStep(t, input, choices, d, c, choice);
    }
  }

  /** Once overrun, always overrun. */
  lemma {:induction false} OverrunStep(t: Tables, input: seq<byte>, choices: seq<Choice>, d: Dec, c: byte,
                                       choice: Choice)
    requires WfTables(t) && |input| == |choices| + 1
    requires !AllFit(Emitted(input, choices)) && InStep(t, input, choices, d)
    requires ChoiceOk(EncRun(input, choices), c, choice)
    ensures InStep(t, input + [c], choices + [choice], d)
  {
    var e := EncRun(input, choices);
    RunSnoc(input, choices, c, choice);
    EmittedFit(input, choices, e);
    OverrunsLonger(DecInit(t), EncStream(input, choices), EncBits(e, choice));
    StepWf(e, c, choice);
  }
}
