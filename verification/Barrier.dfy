/** The tool-call barrier of the stream restorer (pii/document/document.go): fragments of tool arguments are kept back,
    blanked in the frames that pass, and handed on whole when their call is complete. */
module Barrier {
  import opened Wrappers
  import opened Sequences

  /** choice:index of a call, or the block index of an Anthropic tool use. Decimal numbers around a colon never collide. */
  datatype Key = OpenAI(choice: int, call: int) | Anthropic(index: int)

  /** Text belonging to one call. */
  datatype Part = Part(key: Key, text: string)

  /** A call of a frame, under its index field or its position; its arguments when they are a string. */
  datatype Call = Call(id: int, args: Option<string>)

  datatype Choice = Choice(id: int, calls: seq<Call>, finished: bool)

  datatype Block = NoBlock | Fragment(index: int, text: string) | Stop(index: int)

  /** What the barrier reads of a frame. */
  datatype Frame = Frame(choices: seq<Choice>, block: Block)

  /** A frame sent on: complete calls by choice, the input of one Anthropic block, or the frame that came in. */
  datatype Output = Calls(byChoice: map<int, seq<Part>>) | BlockInput(part: Part) | Passed(frame: Frame) | Untouched(frame: Frame)

  type Buffers = map<Key, string>

  // ---------------------------------------------------------------------------------------------
  // What a log of parts says about one call.
  // ---------------------------------------------------------------------------------------------

  /** The text of one call, in the order of the log. */
  ghost function TextOf(log: seq<Part>, key: Key): string {
    if log == [] then ""
    else TextOf(log[..|log| - 1], key) + if log[|log| - 1].key == key then log[|log| - 1].text else ""
  }

  lemma {:induction false} TextAppend(a: seq<Part>, b: seq<Part>, key: Key)
    ensures TextOf(a + b, key) == TextOf(a, key) + TextOf(b, key)
  {
    if b == [] {
      assert a + b == a;
    } else {
      var front, last := b[..|b| - 1], b[|b| - 1];
      TextAppend(a, front, key);
      TextSnoc(a + front, last, key);
      TextSnoc(front, last, key);
      assert b == front + [last] && a + b == a + front + [last];
      Assoc(TextOf(a, key), TextOf(front, key), TextOne(last, key));
    }
  }

  function TextOne(p: Part, key: Key): string { if p.key == key then p.text else "" }

  lemma TextSnoc(log: seq<Part>, p: Part, key: Key)
    ensures TextOf(log + [p], key) == TextOf(log, key) + TextOne(p, key)
  {
    assert (log + [p])[..|log|] == log;
  }

  lemma TextCons(p: Part, log: seq<Part>, key: Key)
    ensures TextOf([p] + log, key) == TextOne(p, key) + TextOf(log, key)
  {
    TextAppend([p], log, key);
    assert [] + [p] == [p];
    TextSnoc([], p, key);
  }

  lemma Assoc(a: string, b: string, c: string)
    ensures (a + b) + c == a + (b + c)
  {
  }

  function Buffered(args: Buffers, key: Key): string { if key in args then args[key] else "" }

  /** For every call, what was handed on and what is still held make up what came in. */
  ghost predicate Balanced(received: seq<Part>, handed: seq<Part>, args: Buffers) {
    forall key {:trigger TextOf(received, key)} :: TextOf(received, key) == TextOf(handed, key) + Buffered(args, key)
  }

  /** For every call, what was sent and what waits to be sent make up what was handed on. */
  ghost predicate Sent(handed: seq<Part>, sent: seq<Part>, pending: seq<Part>) {
    forall key {:trigger TextOf(handed, key)} :: TextOf(handed, key) == TextOf(sent, key) + TextOf(pending, key)
  }

  function Absorbed(args: Buffers, p: Part): Buffers { args[p.key := Buffered(args, p.key) + p.text] }

  lemma AbsorbKeeps(received: seq<Part>, handed: seq<Part>, args: Buffers, p: Part)
    requires Balanced(received, handed, args)
    ensures Balanced(received + [p], handed, Absorbed(args, p))
  {
    forall key ensures TextOf(received + [p], key) == TextOf(handed, key) + Buffered(Absorbed(args, p), key) {
      TextSnoc(received, p, key);
      assert TextOf(received, key) == TextOf(handed, key) + Buffered(args, key);
      Assoc(TextOf(handed, key), Buffered(args, key), TextOne(p, key));
    }
  }

  lemma HandText(handed: seq<Part>, args: Buffers, key: Key, k: Key)
    requires key in args
    ensures TextOf(handed + [Part(key, args[key])], k) + Buffered(args - {key}, k) == TextOf(handed, k) + Buffered(args, k)
  {
    TextSnoc(handed, Part(key, args[key]), k);
    if k == key {
      assert Buffered(args - {key}, k) == "";
    } else {
      assert Buffered(args - {key}, k) == Buffered(args, k) && TextOf(handed, k) + "" == TextOf(handed, k);
    }
  }

  lemma HandKeeps(received: seq<Part>, handed: seq<Part>, args: Buffers, key: Key)
    requires Balanced(received, handed, args) && key in args
    ensures Balanced(received, handed + [Part(key, args[key])], args - {key})
  {
    forall k ensures TextOf(received, k) == TextOf(handed + [Part(key, args[key])], k) + Buffered(args - {key}, k) {
      HandText(handed, args, key, k);
      assert TextOf(received, k) == TextOf(handed, k) + Buffered(args, k);
    }
  }

  // ---------------------------------------------------------------------------------------------
  // What a release takes out.
  // ---------------------------------------------------------------------------------------------

  /** The parts that the keys release: each key once, and only while it is buffered. */
  function Taken(keys: seq<Key>, args: Buffers): seq<Part> {
    if keys == [] then []
    else if keys[0] in args then [Part(keys[0], args[keys[0]])] + Taken(keys[1..], args - {keys[0]})
    else Taken(keys[1..], args)
  }

  predicate IsBlock(p: Part) { p.key.Anthropic? }

  function Blocks(parts: seq<Part>): seq<Part> { Filter(IsBlock, parts) }

  predicate IsCall(p: Part) { p.key.OpenAI? }

  function CallsOf(parts: seq<Part>): seq<Part> { Filter(IsCall, parts) }

  function InChoice(choice: int): Part -> bool { (p: Part) => p.key.OpenAI? && p.key.choice == choice }

  function OfChoice(parts: seq<Part>, choice: int): seq<Part> { Filter(InChoice(choice), parts) }

  function RestoredPart(restore: string -> string): Part -> Part { (p: Part) => Part(p.key, restore(p.text)) }

  function Restored(restore: string -> string, parts: seq<Part>): seq<Part> { Map(RestoredPart(restore), parts) }

  /** The calls grouped by choice, in order within each. */
  ghost predicate Groups(restore: string -> string, parts: seq<Part>, byChoice: map<int, seq<Part>>) {
    forall c {:trigger c in byChoice} {:trigger OfChoice(parts, c)} ::
      && (c in byChoice <==> OfChoice(parts, c) != [])
      && (c in byChoice ==> byChoice[c] == Restored(restore, OfChoice(parts, c)))
  }

  /** The buffers that stay. */
  function Remaining(keys: seq<Key>, args: Buffers): Buffers {
    if keys == [] then args else Remaining(keys[1..], args - {keys[0]})
  }

  lemma {:induction false} RemainingIs(keys: seq<Key>, args: Buffers)
    ensures Remaining(keys, args) == map k | k in args && k !in keys :: args[k]
  {
    if keys != [] {
      RemainingIs(keys[1..], args - {keys[0]});
    }
  }

  /** Of all that is to be taken these parts are, and the keys from i on release the rest. */
  ghost predicate TakenUpTo(keys: seq<Key>, i: nat, args: Buffers, parts: seq<Part>, all: seq<Part>, left: Buffers) {
    i <= |keys| && parts + Taken(keys[i..], args) == all && Remaining(keys[i..], args) == left
  }

  lemma TakenNext(keys: seq<Key>, i: nat, args: Buffers, parts: seq<Part>, all: seq<Part>, left: Buffers)
    requires i < |keys| && TakenUpTo(keys, i, args, parts, all, left)
    ensures if keys[i] in args then TakenUpTo(keys, i + 1, args - {keys[i]}, parts + [Part(keys[i], args[keys[i]])], all, left)
            else TakenUpTo(keys, i + 1, args, parts, all, left)
  {
    assert keys[i..][1..] == keys[i + 1..];
    if keys[i] in args {
      var p, rest := [Part(keys[i], args[keys[i]])], Taken(keys[i + 1..], args - {keys[i]});
      assert parts + (p + rest) == parts + p + rest;
    } else {
      assert args - {keys[i]} == args;
    }
  }

  /** A release takes from each call at most one part, its whole buffer. */
  lemma {:induction false} TakenOnce(keys: seq<Key>, args: Buffers)
    ensures forall p :: p in Taken(keys, args) ==> p.key in args && p.key in keys && p.text == args[p.key]
    ensures forall k :: k in keys && k in args ==> Part(k, args[k]) in Taken(keys, args)
    ensures forall i, j :: 0 <= i < j < |Taken(keys, args)| ==> Taken(keys, args)[i].key != Taken(keys, args)[j].key
  {
    if keys != [] {
      var rest := if keys[0] in args then args - {keys[0]} else args;
      TakenOnce(keys[1..], rest);
      forall k | k in keys && k in args ensures Part(k, args[k]) in Taken(keys, args) {
        assert k == keys[0] || k in keys[1..];
      }
    }
  }

  lemma {:induction false} SplitParts(parts: seq<Part>, key: Key)
    ensures TextOf(CallsOf(parts), key) == if key.OpenAI? then TextOf(parts, key) else ""
    ensures TextOf(Blocks(parts), key) == if key.OpenAI? then "" else TextOf(parts, key)
  {
    if parts != [] {
      var p, rest := parts[0], parts[1..];
      assert parts == [p] + rest;
      SplitParts(rest, key);
      TextCons(p, rest, key);
      TextCons(p, CallsOf(rest), key);
      TextCons(p, Blocks(rest), key);
    }
  }

  /** Handing parts on, sending the calls among them at once and queueing the blocks. */
  lemma SendKeeps(handed: seq<Part>, sent: seq<Part>, pending: seq<Part>, parts: seq<Part>)
    requires Sent(handed, sent, pending) && forall p :: p in pending ==> IsBlock(p)
    ensures Sent(handed + parts, sent + CallsOf(parts), pending + Blocks(parts))
  {
    forall key ensures TextOf(handed + parts, key) == TextOf(sent + CallsOf(parts), key) + TextOf(pending + Blocks(parts), key) {
      assert TextOf(handed, key) == TextOf(sent, key) + TextOf(pending, key);
      if key.OpenAI? {
        NoText(pending, key);
      }
      SendText(handed, sent, pending, parts, key);
    }
  }

  lemma SendText(handed: seq<Part>, sent: seq<Part>, pending: seq<Part>, parts: seq<Part>, key: Key)
    requires TextOf(handed, key) == TextOf(sent, key) + TextOf(pending, key) && (key.OpenAI? ==> TextOf(pending, key) == "")
    ensures TextOf(handed + parts, key) == TextOf(sent + CallsOf(parts), key) + TextOf(pending + Blocks(parts), key)
  {
    TextAppend(handed, parts, key);
    TextAppend(sent, CallsOf(parts), key);
    TextAppend(pending, Blocks(parts), key);
    SplitParts(parts, key);
    EitherWay(TextOf(sent, key), TextOf(pending, key), TextOf(parts, key), key.OpenAI?);
  }

  lemma EitherWay(sent: string, pending: string, text: string, call: bool)
    requires call ==> pending == ""
    ensures (sent + pending) + text == (sent + if call then text else "") + (pending + if call then "" else text)
  {
  }

  lemma {:induction false} NoText(parts: seq<Part>, key: Key)
    requires forall p :: p in parts ==> p.key != key
    ensures TextOf(parts, key) == ""
  {
    if parts != [] {
      NoText(parts[..|parts| - 1], key);
      assert parts[|parts| - 1] in parts;
    }
  }

  /** Sending the first of the queued blocks. */
  lemma SendFirst(handed: seq<Part>, sent: seq<Part>, pending: seq<Part>)
    requires Sent(handed, sent, pending) && pending != []
    ensures Sent(handed, sent + [pending[0]], pending[1..])
  {
    forall key ensures TextOf(handed, key) == TextOf(sent + [pending[0]], key) + TextOf(pending[1..], key) {
      TextSnoc(sent, pending[0], key);
      TextCons(pending[0], pending[1..], key);
      assert pending == [pending[0]] + pending[1..];
      assert TextOf(handed, key) == TextOf(sent, key) + TextOf(pending, key);
      Assoc(TextOf(sent, key), TextOne(pending[0], key), TextOf(pending[1..], key));
    }
  }

  // ---------------------------------------------------------------------------------------------
  // Frames.
  // ---------------------------------------------------------------------------------------------

  function CallParts(choice: int, calls: seq<Call>): seq<Part> {
    if calls == [] then []
    else (match calls[0].args case Some(text) => [Part(OpenAI(choice, calls[0].id), text)] case None => [])
         + CallParts(choice, calls[1..])
  }

  function ChoiceParts(choices: seq<Choice>): seq<Part> {
    if choices == [] then [] else CallParts(choices[0].id, choices[0].calls) + ChoiceParts(choices[1..])
  }

  /** The fragments a frame carries, in order. */
  function PartsOf(f: Frame): seq<Part> {
    ChoiceParts(f.choices) + match f.block case Fragment(i, text) => [Part(Anthropic(i), text)] case _ => []
  }

  function BlankCall(c: Call): Call { Call(c.id, match c.args case Some(_) => Some("") case None => None) }

  function BlankChoice(c: Choice): Choice { Choice(c.id, Map(BlankCall, c.calls), c.finished) }

  /** The frame that is forwarded: the same, with empty arguments. */
  function Blanked(f: Frame): Frame {
    Frame(Map(BlankChoice, f.choices), match f.block case Fragment(i, _) => Fragment(i, "") case b => b)
  }

  lemma {:induction false} BlankCallsAreEmpty(choice: int, calls: seq<Call>)
    ensures forall p :: p in CallParts(choice, Map(BlankCall, calls)) ==> p.text == ""
  {
    if calls != [] {
      BlankCallsAreEmpty(choice, calls[1..]);
      assert Map(BlankCall, calls)[1..] == Map(BlankCall, calls[1..]);
    }
  }

  lemma {:induction false} BlankChoicesAreEmpty(choices: seq<Choice>)
    ensures forall p :: p in ChoiceParts(Map(BlankChoice, choices)) ==> p.text == ""
  {
    if choices != [] {
      BlankCallsAreEmpty(choices[0].id, choices[0].calls);
      BlankChoicesAreEmpty(choices[1..]);
      assert Map(BlankChoice, choices)[1..] == Map(BlankChoice, choices[1..]);
    }
  }

  /** A forwarded frame carries nothing but empty arguments. */
  lemma BlankedIsEmpty(f: Frame)
    ensures forall p :: p in PartsOf(Blanked(f)) ==> p.text == ""
  {
    BlankChoicesAreEmpty(f.choices);
  }

  /** How many of the calls bring arguments. */
  function Given(calls: seq<Call>): nat { if calls == [] then 0 else (if calls[0].args.Some? then 1 else 0) + Given(calls[1..]) }

  function GivenIn(choices: seq<Choice>): nat { if choices == [] then 0 else Given(choices[0].calls) + GivenIn(choices[1..]) }

  /** The length of all arguments of the calls. */
  function ArgsLength(calls: seq<Call>): nat {
    if calls == [] then 0 else (if calls[0].args.Some? then |calls[0].args.value| else 0) + ArgsLength(calls[1..])
  }

  function ChoicesLength(choices: seq<Choice>): nat {
    if choices == [] then 0 else ArgsLength(choices[0].calls) + ChoicesLength(choices[1..])
  }

  function TextLength(parts: seq<Part>): nat { if parts == [] then 0 else |parts[0].text| + TextLength(parts[1..]) }

  lemma {:induction false} TextLengthAppend(a: seq<Part>, b: seq<Part>)
    ensures TextLength(a + b) == TextLength(a) + TextLength(b)
  {
    if a == [] {
      assert a + b == b;
    } else {
      TextLengthAppend(a[1..], b);
      assert (a + b)[1..] == a[1..] + b;
    }
  }

  lemma {:induction false} CallPartsCount(choice: int, calls: seq<Call>)
    ensures |CallParts(choice, calls)| == Given(calls) && TextLength(CallParts(choice, calls)) == ArgsLength(calls)
  {
    if calls != [] {
      CallPartsCount(choice, calls[1..]);
      if calls[0].args.Some? {
        TextLengthAppend([Part(OpenAI(choice, calls[0].id), calls[0].args.value)], CallParts(choice, calls[1..]));
        assert TextLength([Part(OpenAI(choice, calls[0].id), calls[0].args.value)]) == |calls[0].args.value| + TextLength([]);
      } else {
        assert [] + CallParts(choice, calls[1..]) == CallParts(choice, calls[1..]);
      }
    }
  }

  /** The arguments of a call are the part after those of the calls before it. */
  lemma {:induction false} CallPartAt(choice: int, calls: seq<Call>, j: nat)
    requires j < |calls| && calls[j].args.Some?
    ensures Given(calls[..j]) < |CallParts(choice, calls)|
    ensures CallParts(choice, calls)[Given(calls[..j])] == Part(OpenAI(choice, calls[j].id), calls[j].args.value)
    decreases j
  {
    if j > 0 {
      CallPartAt(choice, calls[1..], j - 1);
      assert calls[..j][1..] == calls[1..][..j - 1] && calls[..j][0] == calls[0];
    }
  }

  lemma {:induction false} ChoicePartsCount(choices: seq<Choice>)
    ensures |ChoiceParts(choices)| == GivenIn(choices) && TextLength(ChoiceParts(choices)) == ChoicesLength(choices)
  {
    if choices != [] {
      CallPartsCount(choices[0].id, choices[0].calls);
      ChoicePartsCount(choices[1..]);
      TextLengthAppend(CallParts(choices[0].id, choices[0].calls), ChoiceParts(choices[1..]));
    }
  }

  /** Where in the parts of a frame the arguments of a call come. */
  function Place(choices: seq<Choice>, i: nat, j: nat): nat
    requires i < |choices| && j <= |choices[i].calls|
  {
    GivenIn(choices[..i]) + Given(choices[i].calls[..j])
  }

  lemma {:induction false} ChoicePartAt(choices: seq<Choice>, i: nat, j: nat)
    requires i < |choices| && j < |choices[i].calls| && choices[i].calls[j].args.Some?
    ensures Place(choices, i, j) < |ChoiceParts(choices)|
    ensures ChoiceParts(choices)[Place(choices, i, j)] ==
            Part(OpenAI(choices[i].id, choices[i].calls[j].id), choices[i].calls[j].args.value)
    decreases i
  {
    CallPartsCount(choices[0].id, choices[0].calls);
    if i == 0 {
      CallPartAt(choices[0].id, choices[0].calls, j);
    } else {
      ChoicePartAt(choices[1..], i - 1, j);
      assert choices[..i][1..] == choices[1..][..i - 1] && choices[..i][0] == choices[0];
    }
  }

  lemma {:induction false} GivenMore(calls: seq<Call>, j: nat, k: nat)
    requires j < k <= |calls| && calls[j].args.Some?
    ensures Given(calls[..j]) < Given(calls[..k])
    decreases j
  {
    assert calls[..k][1..] == calls[1..][..k - 1] && calls[..k][0] == calls[0];
    if j > 0 {
      assert calls[..j][1..] == calls[1..][..j - 1] && calls[..j][0] == calls[0];
      GivenMore(calls[1..], j - 1, k - 1);
    }
  }

  lemma {:induction false} GivenInMore(choices: seq<Choice>, i: nat, k: nat, j: nat)
    requires i < k <= |choices| && j < |choices[i].calls| && choices[i].calls[j].args.Some?
    ensures Place(choices, i, j) < GivenIn(choices[..k])
    decreases i
  {
    assert choices[..k][1..] == choices[1..][..k - 1] && choices[..k][0] == choices[0];
    if i == 0 {
      GivenMore(choices[0].calls, j, |choices[0].calls|);
      assert choices[0].calls[..|choices[0].calls|] == choices[0].calls;
    } else {
      assert choices[..i][1..] == choices[1..][..i - 1] && choices[..i][0] == choices[0];
      GivenInMore(choices[1..], i - 1, k - 1, j);
    }
  }

  /** Every argument text of a frame is a part of it, under its choice and call. */
  lemma PartsOfFrame(f: Frame, i: nat, j: nat)
    requires i < |f.choices| && j < |f.choices[i].calls| && f.choices[i].calls[j].args.Some?
    ensures Place(f.choices, i, j) < |PartsOf(f)|
    ensures PartsOf(f)[Place(f.choices, i, j)] ==
            Part(OpenAI(f.choices[i].id, f.choices[i].calls[j].id), f.choices[i].calls[j].args.value)
    ensures f.block.Fragment? ==> PartsOf(f)[|PartsOf(f)| - 1] == Part(Anthropic(f.block.index), f.block.text)
  {
    ChoicePartAt(f.choices, i, j);
  }

  /** The parts come in the order of the calls. */
  lemma PartsInOrder(f: Frame, i: nat, j: nat, k: nat, l: nat)
    requires i < |f.choices| && j < |f.choices[i].calls| && f.choices[i].calls[j].args.Some?
    requires k < |f.choices| && l < |f.choices[k].calls| && (i < k || (i == k && j < l))
    ensures Place(f.choices, i, j) < Place(f.choices, k, l)
  {
    if i < k {
      GivenInMore(f.choices, i, k, j);
    } else {
      GivenMore(f.choices[i].calls, j, l);
    }
  }

  /** There is no other text among the parts. */
  lemma PartsOnly(f: Frame)
    ensures TextLength(PartsOf(f)) == ChoicesLength(f.choices) + (if f.block.Fragment? then |f.block.text| else 0)
    ensures |PartsOf(f)| == GivenIn(f.choices) + if f.block.Fragment? then 1 else 0
  {
    ChoicePartsCount(f.choices);
    if f.block.Fragment? {
      var p := Part(Anthropic(f.block.index), f.block.text);
      TextLengthAppend(ChoiceParts(f.choices), [p]);
      assert TextLength([p]) == |p.text| + TextLength([]);
    } else {
      assert ChoiceParts(f.choices) + [] == ChoiceParts(f.choices);
    }
  }

  lemma {:induction false} BlankCallsIff(choice: int, calls: seq<Call>)
    ensures Map(BlankCall, calls) == calls <==> forall p :: p in CallParts(choice, calls) ==> p.text == ""
  {
    if calls != [] {
      BlankCallsIff(choice, calls[1..]);
      assert calls == [calls[0]] + calls[1..];
      MapCons(BlankCall, calls[0], calls[1..]);
      var own := if calls[0].args.Some? then [Part(OpenAI(choice, calls[0].id), calls[0].args.value)] else [];
      assert CallParts(choice, calls) == own + CallParts(choice, calls[1..]);
      ConsSame(BlankCall(calls[0]), Map(BlankCall, calls[1..]), calls[0], calls[1..]);
      assert (forall p :: p in own ==> p.text == "") <==> BlankCall(calls[0]) == calls[0] by {
        if calls[0].args.Some? {
          assert own[0] in own;
        }
      }
      InEither(own, CallParts(choice, calls[1..]));
    }
  }

  lemma InEither(a: seq<Part>, b: seq<Part>)
    ensures (forall p :: p in a + b ==> p.text == "") <==> (forall p :: p in a ==> p.text == "") && forall p :: p in b ==> p.text == ""
  {
    assert forall p :: p in a + b <==> p in a || p in b;
  }

  lemma ConsSame<T>(x: T, s: seq<T>, y: T, t: seq<T>)
    ensures [x] + s == [y] + t <==> x == y && s == t
  {
    if [x] + s == [y] + t {
      assert s == ([x] + s)[1..] == ([y] + t)[1..] == t && x == ([x] + s)[0] == y;
    }
  }

  lemma {:induction false} BlankChoicesIff(choices: seq<Choice>)
    ensures Map(BlankChoice, choices) == choices <==> forall p :: p in ChoiceParts(choices) ==> p.text == ""
  {
    if choices != [] {
      BlankCallsIff(choices[0].id, choices[0].calls);
      BlankChoicesIff(choices[1..]);
      assert choices == [choices[0]] + choices[1..];
      MapCons(BlankChoice, choices[0], choices[1..]);
      ConsSame(BlankChoice(choices[0]), Map(BlankChoice, choices[1..]), choices[0], choices[1..]);
      InEither(CallParts(choices[0].id, choices[0].calls), ChoiceParts(choices[1..]));
    }
  }

  /** A frame is forwarded as it came exactly if it brings no argument text. */
  lemma BlankedIff(f: Frame)
    ensures Blanked(f) == f <==> forall p :: p in PartsOf(f) ==> p.text == ""
  {
    BlankChoicesIff(f.choices);
    var own := match f.block case Fragment(i, text) => [Part(Anthropic(i), text)] case _ => [];
    InEither(ChoiceParts(f.choices), own);
    if f.block.Fragment? {
      assert own[0] in own;
    }
  }

  // ---------------------------------------------------------------------------------------------
  // The state machine.
  // ---------------------------------------------------------------------------------------------

  predicate KeyIn(log: seq<Part>, key: Key) { exists i :: 0 <= i < |log| && log[i].key == key }

  /** Everything held belongs to a call that came in, and can be found again in the order list. */
  ghost predicate Known(args: Buffers, order: seq<Key>, pending: seq<Part>, received: seq<Part>) {
    && (forall k {:trigger k in args} :: k in args ==> k in order && KeyIn(received, k))
    && (forall p {:trigger p in pending} :: p in pending ==> IsBlock(p) && KeyIn(received, p.key))
  }

  lemma KeyInMore(log: seq<Part>, more: seq<Part>, key: Key)
    ensures KeyIn(log + more, key) <==> KeyIn(log, key) || KeyIn(more, key)
  {
    if KeyIn(log, key) {
      var i :| 0 <= i < |log| && log[i].key == key;
      assert (log + more)[i].key == key;
    }
    if KeyIn(more, key) {
      var i :| 0 <= i < |more| && more[i].key == key;
      assert (log + more)[|log| + i].key == key;
    }
  }

  /** The keys of a choice that finishes. */
  function KeysOf(order: seq<Key>, choice: int): (r: seq<Key>)
    ensures forall k :: k in r <==> k in order && k.OpenAI? && k.choice == choice
  {
    if order == [] then []
    else (if order[0].OpenAI? && order[0].choice == choice then [order[0]] else []) + KeysOf(order[1..], choice)
  }

  /** Whatever is still buffered of a choice that has finished is about to be released. */
  ghost predicate Releasing(args: Buffers, release: seq<Key>, choices: seq<Choice>) {
    forall c, k {:trigger c in choices, k in args} ::
      c in choices && c.finished && k in args && k.OpenAI? && k.choice == c.id ==> k in release
  }

  ghost predicate DistinctIds(choices: seq<Choice>) {
    forall i, j :: 0 <= i < j < |choices| ==> choices[i].id != choices[j].id
  }

  /** What a frame sent for the barrier carries: these parts, restored; calls by choice, or one block. */
  ghost predicate Emits(restore: string -> string, out: Option<Output>, parts: seq<Part>) {
    match out
    case None => parts == []
    case Some(Calls(byChoice)) => parts != [] && (forall p :: p in parts ==> IsCall(p)) && Groups(restore, parts, byChoice)
    case Some(BlockInput(p)) => |parts| == 1 && p == RestoredPart(restore)(parts[0])
    case Some(_) => false
  }

  /** The calls sent for a choice are the parts at these places, each with its text restored; and these are the places of the
      choice. */
  ghost predicate SentFor(restore: string -> string, parts: seq<Part>, choice: int, calls: seq<Part>, picks: seq<nat>) {
    && |picks| == |calls| && (forall i, j :: 0 <= i < j < |picks| ==> picks[i] < picks[j])
    && (forall k {:trigger calls[k]} {:trigger picks[k]} :: 0 <= k < |calls| ==>
          picks[k] < |parts| && calls[k].key == parts[picks[k]].key && calls[k].text == restore(parts[picks[k]].text))
    && (forall i: nat {:trigger parts[i]} :: i < |parts| ==> (i in picks <==> parts[i].key.OpenAI? && parts[i].key.choice == choice))
  }

  /** What is sent is restored, and in the order in which it was taken. */
  lemma CallsAreRestored(restore: string -> string, out: Option<Output>, parts: seq<Part>, choice: int) returns (picks: seq<nat>)
    requires Emits(restore, out, parts) && out.Some? && out.value.Calls?
    ensures SentFor(restore, parts, choice, if choice in out.value.byChoice then out.value.byChoice[choice] else [], picks)
  {
    picks := FilterPicks(InChoice(choice), parts);
    GroupOf(restore, parts, out.value.byChoice, choice);
    RestoredPicks(restore, parts, choice, OfChoice(parts, choice), Restored(restore, OfChoice(parts, choice)), picks);
  }

  lemma GroupOf(restore: string -> string, parts: seq<Part>, byChoice: map<int, seq<Part>>, choice: int)
    requires Groups(restore, parts, byChoice)
    ensures (if choice in byChoice then byChoice[choice] else []) == Restored(restore, OfChoice(parts, choice))
  {
    assert choice in byChoice <==> OfChoice(parts, choice) != [];
  }

  lemma RestoredPicks(restore: string -> string, parts: seq<Part>, choice: int, own: seq<Part>, calls: seq<Part>, picks: seq<nat>)
    requires Picked(InChoice(choice), parts, own, picks) && calls == Restored(restore, own)
    ensures SentFor(restore, parts, choice, calls, picks)
  {
  }

  lemma BlockIsRestored(restore: string -> string, out: Option<Output>, parts: seq<Part>)
    requires Emits(restore, out, parts) && out.Some? && !out.value.Calls?
    ensures out.value.BlockInput? && |parts| == 1
    ensures out.value.part.key == parts[0].key && out.value.part.text == restore(parts[0].text)
  {
  }

  class StreamBarrier {
    const restore: string -> string
    var toolArgs: Buffers
    var toolOrder: seq<Key>
    var pending: seq<Part>
    ghost var received: seq<Part>
    ghost var handed: seq<Part>
    ghost var sent: seq<Part>

    /** Nothing that came in is lost or doubled on its way through the buffers and the queue. */
    ghost predicate Valid()
      reads this
    {
      && Balanced(received, handed, toolArgs) && Sent(handed, sent, pending)
      && Known(toolArgs, toolOrder, pending, received)
    }

    constructor (restore: string -> string)
      ensures Valid() && this.restore == restore && received == [] && handed == [] && sent == [] && pending == []
    {
      this.restore, toolArgs, toolOrder, pending := restore, map[], [], [];
      received, handed, sent := [], [], [];
    }

    /** Takes one fragment in. */
    method Absorb(p: Part)
      requires Valid()
      modifies this`toolArgs, this`toolOrder, this`received
      ensures Valid() && received == old(received) + [p]
      ensures toolArgs == Absorbed(old(toolArgs), p)
      ensures forall k :: k in old(toolOrder) ==> k in toolOrder
    {
      AbsorbKeeps(received, handed, toolArgs, p);
      forall k ensures KeyIn(received + [p], k) <==> KeyIn(received, k) || k == p.key {
        KeyInMore(received, [p], k);
        assert [p][0].key == p.key;
      }
      if p.key !in toolArgs {
        toolOrder := toolOrder + [p.key];
      }
      toolArgs := Absorbed(toolArgs, p);
      received := received + [p];
    }

    /** Takes in the fragments of one choice. */
    method AbsorbCalls(choice: int, calls: seq<Call>)
      requires Valid()
      modifies this`toolArgs, this`toolOrder, this`received
      ensures Valid() && received == old(received) + CallParts(choice, calls)
      ensures forall k :: k in toolArgs ==> k in old(toolArgs) || (k.OpenAI? && k.choice == choice)
    {
      ghost var before := received;
      for i := 0 to |calls|
        invariant Valid() && received + CallParts(choice, calls[i..]) == before + CallParts(choice, calls)
        invariant forall k :: k in toolArgs ==> k in old(toolArgs) || (k.OpenAI? && k.choice == choice)
      {
        assert calls[i..][1..] == calls[i + 1..];
        if calls[i].args.Some? {
          Absorb(Part(OpenAI(choice, calls[i].id), calls[i].args.value));
        }
      }
    }

    /** Takes in all OpenAI fragments of a frame; returns the calls of the choices that finish in it. */
    method AbsorbToolCalls(choices: seq<Choice>) returns (release: seq<Key>)
      requires Valid()
      modifies this`toolArgs, this`toolOrder, this`received
      ensures Valid() && received == old(received) + ChoiceParts(choices)
      ensures DistinctIds(choices) ==> Releasing(toolArgs, release, choices)
    {
      release := [];
      ghost var before := received;
      for i := 0 to |choices|
        invariant Valid() && received + ChoiceParts(choices[i..]) == before + ChoiceParts(choices)
        invariant DistinctIds(choices) ==> Releasing(toolArgs, release, choices[..i])
      {
        assert choices[i..][1..] == choices[i + 1..];
        ghost var was, so := toolArgs, release;
        AbsorbCalls(choices[i].id, choices[i].calls);
        if choices[i].finished {
          release := release + KeysOf(toolOrder, choices[i].id);
        }
        if DistinctIds(choices) {
          ReleasingMore(was, toolArgs, so, release, choices, i, toolOrder);
        }
      }
      assert choices[..|choices|] == choices;
    }

    /** The Anthropic form: a fragment is taken in, and the end of a block releases it. */
    method AbsorbBlock(b: Block) returns (release: seq<Key>)
      requires Valid()
      modifies this`toolArgs, this`toolOrder, this`received
      ensures Valid() && received == old(received) + match b case Fragment(i, text) => [Part(Anthropic(i), text)] case _ => []
      ensures forall k: Key :: k.OpenAI? && k in toolArgs ==> k in old(toolArgs)
      ensures forall i :: b == Stop(i) && Anthropic(i) in toolArgs ==> Anthropic(i) in release
    {
      match b
      case NoBlock => release := [];
      case Fragment(i, text) =>
        Absorb(Part(Anthropic(i), text));
        release := [];
      case Stop(i) =>
        release := if Anthropic(i) in toolArgs then [Anthropic(i)] else [];
    }

    /** Takes one buffer out: to the calls of its choice, or into the queue of blocks. */
    method HandOn(key: Key, byChoice: map<int, seq<Part>>, ghost parts: seq<Part>) returns (grouped: map<int, seq<Part>>)
      requires Balanced(received, handed, toolArgs) && Known(toolArgs, toolOrder, pending, received) && key in toolArgs
      requires Groups(restore, CallsOf(parts), byChoice)
      modifies this`toolArgs, this`pending, this`handed
      ensures Balanced(received, handed, toolArgs) && Known(toolArgs, toolOrder, pending, received)
      ensures var p := Part(key, old(toolArgs)[key]);
              && toolArgs == old(toolArgs) - {key} && handed == old(handed) + [p]
              && pending == old(pending) + (if IsBlock(p) then [p] else [])
              && Groups(restore, CallsOf(parts + [p]), grouped)
    {
      var p := Part(key, toolArgs[key]);
      HandKeeps(received, handed, toolArgs, key);
      CallsAppend(restore, parts, p, byChoice);
      toolArgs := toolArgs - {key};
      handed := handed + [p];
      match key
      case Anthropic(_) =>
        pending := pending + [p];
        grouped := byChoice;
      case OpenAI(c, _) =>
        grouped := byChoice[c := (if c in byChoice then byChoice[c] else []) + [Part(key, restore(p.text))]];
    }

    /** Takes the buffers of the keys out, each once, and sorts them into calls by choice and queued blocks. */
    method Collect(keys: seq<Key>) returns (byChoice: map<int, seq<Part>>, ghost parts: seq<Part>)
      requires Valid()
      modifies this`toolArgs, this`pending, this`handed
      ensures parts == Taken(keys, old(toolArgs)) && toolArgs == Remaining(keys, old(toolArgs))
      ensures handed == old(handed) + parts && pending == old(pending) + Blocks(parts)
      ensures Groups(restore, CallsOf(parts), byChoice)
      ensures Balanced(received, handed, toolArgs) && Known(toolArgs, toolOrder, pending, received)
    {
      byChoice, parts := map[], [];
      ghost var all, left := Taken(keys, toolArgs), Remaining(keys, toolArgs);
      for i := 0 to |keys|
        invariant TakenUpTo(keys, i, toolArgs, parts, all, left)
        invariant handed == old(handed) + parts && pending == old(pending) + Blocks(parts)
        invariant Groups(restore, CallsOf(parts), byChoice)
        invariant Balanced(received, handed, toolArgs) && Known(toolArgs, toolOrder, pending, received)
      {
        TakenNext(keys, i, toolArgs, parts, all, left);
        if keys[i] in toolArgs {
          ghost var p := Part(keys[i], toolArgs[keys[i]]);
          BlocksAppend(old(pending), parts, p);
          byChoice := HandOn(keys[i], byChoice, parts);
          parts := parts + [p];
        }
      }
    }

    /** Sends what the keys release: a frame with all their calls, or else the first of the queued blocks. */
    method RenderReleased(keys: seq<Key>) returns (out: Option<Output>, ghost now: seq<Part>)
      requires Valid()
      modifies this`toolArgs, this`pending, this`handed, this`sent
      ensures Valid() && toolArgs == Remaining(keys, old(toolArgs))
      ensures var parts := Taken(keys, old(toolArgs));
              var calls, queue := CallsOf(parts), old(pending) + Blocks(parts);
              && handed == old(handed) + parts && sent == old(sent) + now && Emits(restore, out, now)
              && (if keys == [] then now == [] && pending == queue
                  else if calls != [] then now == calls && pending == queue
                  else if queue != [] then now == [queue[0]] && pending == queue[1..]
                  else now == [] && pending == [])
    {
      if keys == [] {
        return None, [];
      }
      ghost var before, waiting := handed, pending;
      var byChoice, parts := Collect(keys);
      SendKeeps(before, sent, waiting, parts);
      NoGroups(restore, CallsOf(parts), byChoice);
      now := CallsOf(parts);
      assert now == [] ==> sent + now == sent;
      sent := sent + now;
      if byChoice == map[] {
        if pending != [] {
          SendFirst(handed, sent, pending);
          out := Some(BlockInput(Part(pending[0].key, restore(pending[0].text))));
          now := [pending[0]];
          sent := sent + now;
          assert forall p {:trigger p in pending[1..]} :: p in pending[1..] ==> p in pending;
          pending := pending[1..];
          return;
        }
        return None, [];
      }
      out := Some(Calls(byChoice));
    }

    /** One frame of the stream. What it completes goes out before it, and it carries nothing but empty arguments itself.
        If restoring the rest of the frame fails, the frame goes out untouched and what it completed stays behind. */
    method Process(f: Frame, restoreFails: bool) returns (outs: seq<Output>, ghost now: seq<Part>)
      requires Valid()
      modifies this
      ensures Valid() && received == old(received) + PartsOf(f)
      ensures sent == old(sent) + now && Emits(restore, if |outs| == 2 then Some(outs[0]) else None, now)
      ensures restoreFails ==> outs == [Untouched(f)] && handed == old(handed)
      ensures !restoreFails ==>
                && 1 <= |outs| <= 2 && outs[|outs| - 1] == Passed(Blanked(f))
                && (DistinctIds(f.choices) ==> forall c, k: Key {:trigger c in f.choices, k in toolArgs} ::
                      c in f.choices && c.finished && k.OpenAI? && k.choice == c.id ==> k !in toolArgs)
                && (f.block.Stop? ==> Anthropic(f.block.index) !in toolArgs)
    {
      var release := AbsorbToolCalls(f.choices);
      var block := AbsorbBlock(f.block);
      release := release + block;
      if restoreFails {
        return [Untouched(f)], [];
      }
      ghost var held := toolArgs;
      RemainingIs(release, held);
      outs := [];
      var extra;
      extra, now := RenderReleased(release);
      ghost var first := extra;
      while extra.Some?
        invariant Valid() && received == old(received) + PartsOf(f) && toolArgs == Remaining(release, held)
        invariant sent == old(sent) + now && outs == (if extra.Some? || first.None? then [] else [first.value])
        invariant extra.Some? ==> extra == first
        decreases if extra.Some? then 1 else 0
      {
        outs := outs + [extra.value];
        ghost var none;
        extra, none := RenderReleased([]);
      }
      outs := outs + [Passed(Blanked(f))];
    }

    /** The end of the stream: what is still held is handed on in one frame. */
    method FlushToolCalls() returns (out: Option<Output>, ghost now: seq<Part>)
      requires Valid()
      modifies this
      ensures Valid() && received == old(received) && toolArgs == map[]
      ensures sent == old(sent) + now && Emits(restore, out, now)
      ensures pending == [] <==> Drains(old(toolArgs), |old(pending)|)
    {
      if toolArgs == map[] {
        return None, [];
      }
      var keys: seq<Key> := [];
      for i := 0 to |toolOrder|
        invariant forall k {:trigger k in keys} :: k in keys <==> k in toolOrder[..i] && k in toolArgs
      {
        assert forall k :: k in toolOrder[..i + 1] <==> k in toolOrder[..i] || k == toolOrder[i];
        if toolOrder[i] in toolArgs {
          keys := keys + [toolOrder[i]];
        }
      }
      assert toolOrder[..|toolOrder|] == toolOrder;
      RemainingIs(keys, toolArgs);
      FlushCount(keys, toolArgs);
      out, now := RenderReleased(keys);
    }
  }

  /** What one flush can send: calls of any number, or a single block, but not both. */
  ghost predicate Drains(args: Buffers, queued: nat) {
    var blocks := |set k | k in args && k.Anthropic?|;
    queued + blocks == 0 || (queued + blocks == 1 && args != map[] && forall k :: k in args ==> k.Anthropic?)
  }

  /** A call and a block, or two blocks, are more than one flush can send. */
  lemma TooMuchForOneFlush(args: Buffers, a: Key, b: Key, queued: nat)
    requires a in args && b in args && a != b && b.Anthropic?
    ensures !Drains(args, queued)
  {
    var blocks := set k | k in args && k.Anthropic?;
    assert b in blocks;
    if a.Anthropic? {
      assert {a, b} <= blocks;
      SubsetSize({a, b}, blocks);
    }
  }

  lemma SubsetSize(a: set<Key>, b: set<Key>)
    requires a <= b
    ensures |a| <= |b|
  {
    assert b == a + (b - a);
  }

  lemma TwoBlocksHeld(b: StreamBarrier)
    requires b.Valid() && b.handed == [] && b.received == [Part(Anthropic(0), "x"), Part(Anthropic(1), "y")]
    ensures Anthropic(0) in b.toolArgs && Anthropic(1) in b.toolArgs
  {
    assert b.received[..1] == [Part(Anthropic(0), "x")];
    TextSnoc([], Part(Anthropic(0), "x"), Anthropic(0));
    TextSnoc([Part(Anthropic(0), "x")], Part(Anthropic(1), "y"), Anthropic(0));
    TextSnoc([Part(Anthropic(0), "x")], Part(Anthropic(1), "y"), Anthropic(1));
    assert [] + [Part(Anthropic(0), "x")] == [Part(Anthropic(0), "x")];
    assert [Part(Anthropic(0), "x")] + [Part(Anthropic(1), "y")] == b.received;
    assert TextOf(b.received, Anthropic(0)) == "" + Buffered(b.toolArgs, Anthropic(0));
    assert TextOf(b.received, Anthropic(1)) == "" + Buffered(b.toolArgs, Anthropic(1));
  }

  /** A stream that breaks off with two blocks open: the flush sends one of them and leaves the other in the queue. */
  method BrokenOff(restore: string -> string) returns (b: StreamBarrier, out: Option<Output>)
    ensures b.received == [Part(Anthropic(0), "x"), Part(Anthropic(1), "y")]
    ensures b.toolArgs == map[] && b.pending != []
  {
    b := new StreamBarrier(restore);
    var release := b.AbsorbBlock(Fragment(0, "x"));
    release := b.AbsorbBlock(Fragment(1, "y"));
    TwoBlocksHeld(b);
    TooMuchForOneFlush(b.toolArgs, Anthropic(0), Anthropic(1), |b.pending|);
    ghost var now;
    out, now := b.FlushToolCalls();
  }

  /** The blocks among what is taken are the buffered blocks, each once. */
  lemma FlushCount(keys: seq<Key>, args: Buffers)
    requires forall k {:trigger k in args} :: k in args ==> k in keys
    ensures |Blocks(Taken(keys, args))| == |set k | k in args && k.Anthropic?|
    ensures CallsOf(Taken(keys, args)) == [] <==> forall k :: k in args ==> k.Anthropic?
  {
    var parts := Taken(keys, args);
    TakenOnce(keys, args);
    FilterKeeps(IsCall, parts);
    BlockKeys(parts);
    assert (set p | p in parts && IsBlock(p) :: p.key) == set k | k in args && k.Anthropic?;
    if CallsOf(parts) != [] {
      assert CallsOf(parts)[0] in parts;
    } else {
      forall k | k in args ensures k.Anthropic? {
        assert Part(k, args[k]) in parts;
      }
    }
  }

  lemma {:induction false} BlockKeys(parts: seq<Part>)
    requires forall i, j :: 0 <= i < j < |parts| ==> parts[i].key != parts[j].key
    ensures |Blocks(parts)| == |set p | p in parts && IsBlock(p) :: p.key|
  {
    if parts != [] {
      BlockKeys(parts[1..]);
      KeysOfRest(parts, set p | p in parts && IsBlock(p) :: p.key, set p | p in parts[1..] && IsBlock(p) :: p.key);
    } else {
      assert (set p | p in parts && IsBlock(p) :: p.key) == {};
    }
  }

  lemma KeysOfRest(parts: seq<Part>, keys: set<Key>, rest: set<Key>)
    requires parts != [] && forall i, j :: 0 <= i < j < |parts| ==> parts[i].key != parts[j].key
    requires keys == (set p | p in parts && IsBlock(p) :: p.key) && rest == set p | p in parts[1..] && IsBlock(p) :: p.key
    ensures |keys| == |rest| + if IsBlock(parts[0]) then 1 else 0
  {
    assert parts[0].key !in rest;
    assert keys == rest + if IsBlock(parts[0]) then {parts[0].key} else {};
  }

  lemma CallsAppend(restore: string -> string, parts: seq<Part>, p: Part, byChoice: map<int, seq<Part>>)
    requires Groups(restore, CallsOf(parts), byChoice)
    ensures p.key.Anthropic? ==> CallsOf(parts + [p]) == CallsOf(parts)
    ensures p.key.OpenAI? ==>
              var c := p.key.choice;
              Groups(restore, CallsOf(parts + [p]),
                     byChoice[c := (if c in byChoice then byChoice[c] else []) + [Part(p.key, restore(p.text))]])
  {
    FilterAppend(IsCall, parts, [p]);
    assert Filter(IsCall, [p]) == if IsCall(p) then [p] else [];
    if p.key.OpenAI? {
      var calls, d := CallsOf(parts), p.key.choice;
      var byChoice' := byChoice[d := (if d in byChoice then byChoice[d] else []) + [Part(p.key, restore(p.text))]];
      assert CallsOf(parts + [p]) == calls + [p];
      forall c ensures (c in byChoice' <==> OfChoice(calls + [p], c) != [])
                       && (c in byChoice' ==> byChoice'[c] == Restored(restore, OfChoice(calls + [p], c)))
      {
        ChoiceAppend(restore, calls, p, c);
        assert c in byChoice <==> OfChoice(calls, c) != [];
      }
    }
  }

  lemma BlocksAppend(queue: seq<Part>, parts: seq<Part>, p: Part)
    ensures queue + Blocks(parts + [p]) == queue + Blocks(parts) + if IsBlock(p) then [p] else []
  {
    FilterAppend(IsBlock, parts, [p]);
    assert Filter(IsBlock, [p]) == if IsBlock(p) then [p] else [];
  }

  lemma ChoiceAppend(restore: string -> string, calls: seq<Part>, p: Part, c: int)
    requires p.key.OpenAI?
    ensures OfChoice(calls + [p], c) == OfChoice(calls, c) + if p.key.choice == c then [p] else []
    ensures Restored(restore, OfChoice(calls, c) + [p]) == Restored(restore, OfChoice(calls, c)) + [Part(p.key, restore(p.text))]
  {
    FilterAppend(InChoice(c), calls, [p]);
    assert Filter(InChoice(c), [p]) == if p.key.choice == c then [p] else [];
    MapAppend(RestoredPart(restore), OfChoice(calls, c), [p]);
  }

  lemma NoGroups(restore: string -> string, calls: seq<Part>, byChoice: map<int, seq<Part>>)
    requires Groups(restore, calls, byChoice) && forall p :: p in calls ==> IsCall(p)
    ensures byChoice == map[] <==> calls == []
  {
    if calls != [] {
      assert calls[0] in calls;
      FilterKeeps(InChoice(calls[0].key.choice), calls);
      assert calls[0] in OfChoice(calls, calls[0].key.choice);
    } else {
      assert forall c :: OfChoice(calls, c) == [];
      assert forall c :: c !in byChoice;
    }
  }

  /** Another choice, under an id of its own, takes nothing from the release of those before it. */
  lemma ReleasingMore(was: Buffers, args: Buffers, release: seq<Key>, release': seq<Key>, choices: seq<Choice>, i: nat, order: seq<Key>)
    requires i < |choices| && DistinctIds(choices) && Releasing(was, release, choices[..i])
    requires forall k :: k in args ==> k in order && (k in was || (k.OpenAI? && k.choice == choices[i].id))
    requires release' == release + if choices[i].finished then KeysOf(order, choices[i].id) else []
    ensures Releasing(args, release', choices[..i + 1])
  {
    forall c, k | c in choices[..i + 1] && c.finished && k in args && k.OpenAI? && k.choice == c.id ensures k in release' {
      if c in choices[..i] {
        var j :| 0 <= j < i && choices[j] == c;
        assert k in was;
      }
    }
  }

  /** In a stream of OpenAI frames no block is ever queued; and when the queue and the buffers are empty, the client has
      been sent the whole text of every call, in order. */
  lemma NothingLost(received: seq<Part>, handed: seq<Part>, sent: seq<Part>, args: Buffers, order: seq<Key>, pending: seq<Part>)
    requires Balanced(received, handed, args) && Sent(handed, sent, pending) && Known(args, order, pending, received)
    ensures (forall p :: p in received ==> IsCall(p)) ==> pending == []
    ensures args == map[] && pending == [] ==> forall key :: TextOf(sent, key) == TextOf(received, key)
  {
    if pending != [] {
      assert pending[0] in pending;
      var i :| 0 <= i < |received| && received[i].key == pending[0].key;
      assert received[i] in received && !IsCall(received[i]);
    }
    if args == map[] && pending == [] {
      forall key ensures TextOf(sent, key) == TextOf(received, key) {
        assert TextOf(received, key) == TextOf(handed, key) + Buffered(args, key);
        assert TextOf(handed, key) == TextOf(sent, key) + TextOf(pending, key);
      }
    }
  }
}
