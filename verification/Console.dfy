/** Console input: the line discipline (kernel/src/line.rs) and the input queue over it
    (kernel/src/input.rs), with raw and line modes and what is handed over between them. */
module Console {
  import opened Wrappers
  import opened Le

  /** The bytes typed and not read that the discipline keeps. */
  const LINE_MAX: nat := 4096
  /** The raw bytes kept. */
  const QUEUE_MAX: nat := 4096
  const SEQUENCE_MAX: nat := 8
  const ESC_TIMEOUT_MS: nat := 50

  const INTERRUPT: byte := 0x03
  const END: byte := 0x04
  const BELL_ERASE: Bytes := [0x08, 0x20, 0x08]
  const TAB: byte := 0x09
  const LF: byte := 0x0A
  const CR: byte := 0x0D
  const ESC: byte := 0x1B
  const BRACKET: byte := 0x5B

  // ----- the line discipline, on values -----

  /** `line` is being typed; `ready` waits, oldest first, `None` for an end of input; `waiting` counts
      the bytes in `ready`; `afterCr`: the last key was a CR. */
  datatype Lines = Lines(line: Bytes, ready: seq<Option<Bytes>>, waiting: nat, afterCr: bool)

  const NO_LINES: Lines := Lines([], [], 0, false)

  /** A character that can be typed into a line. */
  predicate Plain(b: byte) {
    b == TAB || 0x20 <= b <= 0x7E || b >= 0x80
  }

  predicate Erases(b: byte) {
    b == 0x7F || b == 0x08
  }

  /** The line without its last character: its continuation bytes, then its first byte. */
  function Erased(line: Bytes): (r: Bytes)
    ensures r <= line && (line != [] ==> |r| < |line|)
  {
    if line == [] then []
    else if 0x80 <= line[|line| - 1] <= 0xBF then Erased(line[..|line| - 1])
    else line[..|line| - 1]
  }

  /** The line being typed joins those that wait. */
  function HandedOver(s: Lines): Lines {
    s.(line := [], ready := s.ready + [Some(s.line)], waiting := s.waiting + |s.line|)
  }

  /** The discipline after one key's bytes. */
  function Keyed(s: Lines, key: Bytes): Lines {
    var t := s.(afterCr := false);
    if |key| != 1 then t
    else
      var b := key[0];
      if b == INTERRUPT then t.(line := [], ready := [], waiting := 0)
      else if b == LF && s.afterCr then t
      else if b == CR || b == LF then
        var u := t.(afterCr := b == CR);
        if s.waiting + |s.line| < LINE_MAX then HandedOver(u.(line := u.line + [LF])) else u
      else if b == END then
        if s.line == [] then if s.waiting < LINE_MAX then t.(ready := t.ready + [None], waiting := t.waiting + 1) else t
        else HandedOver(t)
      else if Erases(b) then t.(line := Erased(t.line))
      else if Plain(b) && s.waiting + |s.line| + 2 <= LINE_MAX then t.(line := t.line + [b])
      else t
  }

  /** What the screen shows for it. */
  function Shown(s: Lines, key: Bytes): Bytes {
    if |key| != 1 then []
    else
      var b := key[0];
      if b == INTERRUPT || (b == LF && s.afterCr) then []
      else if b == CR || b == LF then if s.waiting + |s.line| < LINE_MAX then [LF] else []
      else if b == END then []
      else if Erases(b) then if s.line == [] then [] else BELL_ERASE
      else if Plain(b) && s.waiting + |s.line| + 2 <= LINE_MAX then [b]
      else []
  }

  // ----- what every key keeps -----

  /** The bytes of what waits, an end of input counting as one. */
  function Waiting(ready: seq<Option<Bytes>>): nat {
    if ready == [] then 0
    else Waiting(ready[..|ready| - 1]) + (match ready[|ready| - 1] case Some(l) => |l| case None => 1)
  }

  /** The bytes of what waits, in order. */
  function Flat(ready: seq<Option<Bytes>>): Bytes {
    if ready == [] then []
    else Flat(ready[..|ready| - 1]) + (match ready[|ready| - 1] case Some(l) => l case None => [])
  }

  /** Everything typed and not read, as a raw reader would have had it. */
  function Typed(s: Lines): Bytes {
    Flat(s.ready) + s.line
  }

  /** A line that waits: characters, and a newline only at its end. */
  ghost predicate LineOk(l: Bytes) {
    l != [] && forall i :: 0 <= i < |l| ==> Plain(l[i]) || (l[i] == LF && i == |l| - 1)
  }

  ghost predicate ReadyOk(ready: seq<Option<Bytes>>) {
    forall i :: 0 <= i < |ready| && ready[i].Some? ==> LineOk(ready[i].value)
  }

  /** What a full discipline ends in: an end of input, or a line ended with Enter. */
  ghost predicate EndsFull(ready: seq<Option<Bytes>>) {
    && ready != []
    && (ready[|ready| - 1].Some? ==>
       ready[|ready| - 1].value != [] && ready[|ready| - 1].value[|ready[|ready| - 1].value| - 1] == LF)
  }

  /** Never more than `LINE_MAX` bytes, and room for Enter whenever something is typed. */
  ghost predicate LinesOk(s: Lines) {
    && s.waiting == Waiting(s.ready) && ReadyOk(s.ready)
    && (forall i :: 0 <= i < |s.line| ==> Plain(s.line[i]))
    && s.waiting + |s.line| <= LINE_MAX && (s.line != [] ==> s.waiting + |s.line| < LINE_MAX)
    && (s.waiting == LINE_MAX ==> EndsFull(s.ready))
  }

  lemma WaitingMore(ready: seq<Option<Bytes>>, l: Option<Bytes>)
    ensures Waiting(ready + [l]) == Waiting(ready) + (match l case Some(x) => |x| case None => 1)
    ensures Flat(ready + [l]) == Flat(ready) + (match l case Some(x) => x case None => [])
  {
    assert (ready + [l])[..|ready|] == ready;
  }

  /** A line, ended with Enter or not, that fits; only Enter may fill the discipline. */
  ghost predicate MayHandOver(s: Lines) {
    && s.waiting == Waiting(s.ready) && ReadyOk(s.ready) && LineOk(s.line)
    && s.waiting + |s.line| <= LINE_MAX && (s.waiting + |s.line| == LINE_MAX ==> s.line[|s.line| - 1] == LF)
  }

  lemma HandedOverTyped(s: Lines)
    ensures Typed(HandedOver(s)) == Typed(s)
  {
    hide Waiting, Flat;
    WaitingMore(s.ready, Some(s.line));
    assert Flat(HandedOver(s).ready) + [] == Flat(s.ready) + s.line;
  }

  lemma HandOverOk(s: Lines)
    requires MayHandOver(s)
    ensures LinesOk(HandedOver(s)) && Typed(HandedOver(s)) == Typed(s)
  {
    hide Waiting, Flat, LineOk;
    WaitingMore(s.ready, Some(s.line));
    var t := HandedOver(s);
    assert Flat(t.ready) + [] == Flat(s.ready) + s.line;
    LineEnds(s.line);
  }

  lemma LineEnds(l: Bytes)
    requires LineOk(l)
    ensures l != []
  {
  }

  /** Every key keeps the discipline in bounds. */
  lemma KeyedOk(s: Lines, key: Bytes)
    requires LinesOk(s)
    ensures LinesOk(Keyed(s, key))
  {
    hide Waiting, Flat;
    if |key| == 1 {
      var b := key[0];
      if b == INTERRUPT {
        WaitingNone();
      } else if (b == CR || b == LF) && !(b == LF && s.afterCr) && s.waiting + |s.line| < LINE_MAX {
        HandOverOk(s.(afterCr := b == CR, line := s.line + [LF]));
      } else if b == END {
        if s.line == [] { WaitingMore(s.ready, None); } else { HandOverOk(s.(afterCr := false)); }
      } else if Erases(b) {
        var r := Erased(s.line);
        assert forall i :: 0 <= i < |r| ==> r[i] == s.line[i];
      }
    }
  }

  lemma WaitingNone()
    ensures Waiting([]) == 0 && Flat([]) == []
  {
  }

  // ----- many keys -----

  function KeyedAll(s: Lines, keys: seq<Bytes>): Lines {
    if keys == [] then s else Keyed(KeyedAll(s, keys[..|keys| - 1]), keys[|keys| - 1])
  }

  function ShownAll(s: Lines, keys: seq<Bytes>): Bytes {
    if keys == [] then []
    else ShownAll(s, keys[..|keys| - 1]) + Shown(KeyedAll(s, keys[..|keys| - 1]), keys[|keys| - 1])
  }

  lemma {:induction false} KeyedAllOk(s: Lines, keys: seq<Bytes>)
    requires LinesOk(s)
    ensures LinesOk(KeyedAll(s, keys))
  {
    if keys != [] {
      KeyedAllOk(s, keys[..|keys| - 1]);
      KeyedOk(KeyedAll(s, keys[..|keys| - 1]), keys[|keys| - 1]);
    }
  }

  /** How long the first key of `rest` is: an escape sequence up to its final byte, or one byte. */
  function KeyLen(rest: Bytes): (n: nat)
    requires rest != []
    ensures 1 <= n <= |rest| && (rest[0] != ESC ==> n == 1)
  {
    if |rest| >= 2 && rest[0] == ESC && rest[1] == BRACKET then 2 + FinalLen(rest[2..]) else 1
  }

  function FinalLen(tail: Bytes): (n: nat)
    ensures n <= |tail|
  {
    if tail == [] then 0 else if 0x40 <= tail[0] <= 0x7E then 1 else 1 + FinalLen(tail[1..])
  }

  /** `bytes` cut into keys. */
  function Keys(bytes: Bytes): seq<Bytes> {
    if bytes == [] then [] else [bytes[..KeyLen(bytes)]] + Keys(bytes[KeyLen(bytes)..])
  }

  /** Without an escape every byte is a key. */
  lemma {:induction false} KeysPlain(bytes: Bytes)
    requires ESC !in bytes
    ensures |Keys(bytes)| == |bytes| && forall i :: 0 <= i < |bytes| ==> Keys(bytes)[i] == [bytes[i]]
  {
    if bytes != [] {
      assert bytes[0] in bytes;
      assert KeyLen(bytes) == 1;
      KeysPlain(bytes[1..]);
    }
  }

  /** A line that was typed can be typed again. */
  ghost predicate Retypable(bytes: Bytes) {
    && (forall i :: 0 <= i < |bytes| ==> Plain(bytes[i]) || bytes[i] == LF)
    && |bytes| <= LINE_MAX && (|bytes| == LINE_MAX ==> bytes[LINE_MAX - 1] == LF)
  }

  /** A byte that fits is kept, after the others. */
  lemma TypedMore(s: Lines, b: byte)
    requires LinesOk(s) && !s.afterCr
    requires (Plain(b) && s.waiting + |s.line| + 2 <= LINE_MAX) || (b == LF && s.waiting + |s.line| < LINE_MAX)
    ensures var t := Keyed(s, [b]);
            LinesOk(t) && Typed(t) == Typed(s) + [b] && t.waiting + |t.line| == s.waiting + |s.line| + 1 && !t.afterCr
  {
    hide Waiting, Flat, LinesOk;
    KeyedOk(s, [b]);
    if b == LF {
      EnterOk(s);
    } else {
      assert Flat(s.ready) + (s.line + [b]) == Flat(s.ready) + s.line + [b];
    }
  }

  lemma EnterOk(s: Lines)
    requires LinesOk(s) && s.waiting + |s.line| < LINE_MAX
    ensures Typed(HandedOver(s.(line := s.line + [LF]))) == Typed(s) + [LF]
  {
    hide Waiting, Flat;
    WaitingMore(s.ready, Some(s.line + [LF]));
    assert Flat(s.ready) + (s.line + [LF]) == Flat(s.ready) + s.line + [LF];
  }

  lemma NothingTyped()
    ensures LinesOk(NO_LINES) && Typed(NO_LINES) == []
  {
  }

  /** What was typed and not read can be typed again, and nothing of it is dropped. */
  lemma {:induction false} Retyped(bytes: Bytes, keys: seq<Bytes>)
    requires Retypable(bytes) && |keys| == |bytes| && forall i :: 0 <= i < |keys| ==> keys[i] == [bytes[i]]
    ensures var s := KeyedAll(NO_LINES, keys);
            && LinesOk(s) && Typed(s) == bytes && s.waiting + |s.line| == |bytes| && !s.afterCr
  {
    hide Waiting, Flat, Keyed, LinesOk, Typed;
    if bytes == [] {
      NothingTyped();
    } else {
      var n := |bytes| - 1;
      Retyped(bytes[..n], keys[..n]);
      TypedMore(KeyedAll(NO_LINES, keys[..n]), bytes[n]);
      assert bytes == bytes[..n] + [bytes[n]];
    }
  }

  lemma {:induction false} FlatPlain(ready: seq<Option<Bytes>>)
    requires ReadyOk(ready)
    ensures forall i :: 0 <= i < |Flat(ready)| ==> Plain(Flat(ready)[i]) || Flat(ready)[i] == LF
    ensures |Flat(ready)| <= Waiting(ready)
    ensures |Flat(ready)| == Waiting(ready) && EndsFull(ready) ==>
            Flat(ready) != [] && Flat(ready)[|Flat(ready)| - 1] == LF
  {
    if ready != [] { FlatPlain(ready[..|ready| - 1]); }
  }

  /** What the discipline holds can be typed again. */
  lemma TypedRetypable(s: Lines)
    requires LinesOk(s)
    ensures Retypable(Typed(s)) && ESC !in Typed(s) && INTERRUPT !in Typed(s)
  {
    hide Waiting, Flat;
    FlatPlain(s.ready);
  }

  // ----- reading lines -----

  function Size(l: Option<Bytes>): nat {
    match l case Some(x) => |x| case None => 1
  }

  function BytesOf(l: Option<Bytes>): Bytes {
    match l case Some(x) => x case None => []
  }

  lemma {:induction false} FromFront(ready: seq<Option<Bytes>>)
    requires ready != []
    ensures Waiting(ready) == Size(ready[0]) + Waiting(ready[1..])
            && Flat(ready) == BytesOf(ready[0]) + Flat(ready[1..])
  {
    hide Waiting, Flat;
    var front, last := ready[..|ready| - 1], ready[|ready| - 1];
    assert ready == front + [last];
    WaitingMore(front, last);
    if front == [] {
      WaitingNone();
      assert ready[1..] == [];
    } else {
      FromFront(front);
      assert ready[1..] == front[1..] + [last];
      WaitingMore(front[1..], last);
      Joined3(BytesOf(ready[0]), Flat(front[1..]), BytesOf(last));
    }
  }

  lemma Joined3(a: Bytes, b: Bytes, c: Bytes)
    ensures (a + b) + c == a + (b + c)
  {
  }

  /** The discipline after a read into a buffer of `n` bytes: from the oldest line only. */
  function AfterRead(s: Lines, n: nat): Lines {
    if n == 0 || s.ready == [] then s
    else match s.ready[0]
      case None => s.(ready := s.ready[1..], waiting := if s.waiting > 0 then s.waiting - 1 else 0)
      case Some(l) =>
        if |l| <= n then s.(ready := s.ready[1..], waiting := if s.waiting >= |l| then s.waiting - |l| else 0)
        else s.(ready := s.ready[0 := Some(l[n..])], waiting := if s.waiting >= n then s.waiting - n else 0)
  }

  function ReadBytes(s: Lines, n: nat): Option<Bytes> {
    if n == 0 then Some([])
    else if s.ready == [] then None
    else match s.ready[0]
      case None => Some([])
      case Some(l) => Some(if |l| <= n then l else l[..n])
  }

  /** A read takes the first bytes that wait, and never passes the end of a line. */
  lemma ReadOk(s: Lines, n: nat)
    requires LinesOk(s)
    ensures LinesOk(AfterRead(s, n))
    ensures ReadBytes(s, n).None? ==> AfterRead(s, n) == s
    ensures ReadBytes(s, n).Some? ==> Typed(s) == ReadBytes(s, n).value + Typed(AfterRead(s, n))
  {
    hide Waiting, Flat, LineOk, LinesOk;
    if n > 0 && s.ready != [] {
      match s.ready[0]
      case None => ReadWhole(s);
      case Some(l) =>
        if |l| <= n { ReadWhole(s); } else { ReadPart(s, n); }
    }
  }

  /** The oldest line, or end of input, is taken. */
  lemma ReadWhole(s: Lines)
    requires LinesOk(s) && s.ready != []
    ensures Size(s.ready[0]) <= s.waiting
    ensures var t := s.(ready := s.ready[1..], waiting := s.waiting - Size(s.ready[0]));
            LinesOk(t) && Typed(s) == BytesOf(s.ready[0]) + Typed(t)
  {
    hide Waiting, Flat;
    FromFront(s.ready);
    FirstCounts(s.ready);
    var t := s.(ready := s.ready[1..], waiting := s.waiting - Size(s.ready[0]));
    assert ReadyOk(t.ready);
    Joined3(BytesOf(s.ready[0]), Flat(t.ready), s.line);
  }

  lemma FirstCounts(ready: seq<Option<Bytes>>)
    requires ReadyOk(ready) && ready != []
    ensures Size(ready[0]) > 0
  {
  }

  /** Part of the oldest line is taken. */
  lemma ReadPart(s: Lines, n: nat)
    requires LinesOk(s) && s.ready != [] && s.ready[0].Some? && 0 < n < |s.ready[0].value|
    ensures n <= s.waiting
    ensures var t := s.(ready := s.ready[0 := Some(s.ready[0].value[n..])], waiting := s.waiting - n);
            LinesOk(t) && Typed(s) == s.ready[0].value[..n] + Typed(t)
  {
    hide Waiting, Flat;
    var l := s.ready[0].value;
    FromFront(s.ready);
    var t := s.(ready := s.ready[0 := Some(l[n..])], waiting := s.waiting - n);
    FromFront(t.ready);
    assert t.ready[1..] == s.ready[1..];
    assert LineOk(l);
    assert LineOk(l[n..]);
    assert ReadyOk(t.ready);
    assert l == l[..n] + l[n..];
    Joined3(l[..n], l[n..], Flat(s.ready[1..]));
    Joined3(l[..n], Flat(t.ready), s.line);
  }

  // ----- the line discipline -----

  class LineDiscipline {
    var line: Bytes
    var ready: seq<Option<Bytes>>
    var waiting: nat
    var afterCr: bool

    function State(): Lines
      reads this
    {
      Lines(line, ready, waiting, afterCr)
    }

    constructor ()
      ensures State() == NO_LINES
    {
      line, ready, waiting, afterCr := [], [], 0, false;
    }

    /** One key's bytes. What the screen should show is added to `echo`; whether it was Ctrl-C. */
    method Input(key: Bytes, echo: Bytes) returns (hit: bool, echo': Bytes)
      requires LinesOk(State())
      modifies this
      ensures State() == Keyed(old(State()), key) && LinesOk(State())
      ensures echo' == echo + Shown(old(State()), key) && (hit <==> key == [INTERRUPT])
    {
      KeyedOk(State(), key);
      hide LinesOk, Waiting, Flat;
      var after := afterCr;
      afterCr := false;
      echo' := echo;
      hit := false;
      if |key| != 1 {
        return;
      }
      var b := key[0];
      if b == INTERRUPT {
        line, ready, waiting := [], [], 0;
        hit := true;
      } else if b == LF && after {
      } else if b == CR || b == LF {
        afterCr := b == CR;
        if waiting + |line| < LINE_MAX {
          line := line + [LF];
          HandOver();
          echo' := echo' + [LF];
        }
      } else if b == END {
        if line == [] {
          if waiting < LINE_MAX {
            ready := ready + [None];
            waiting := waiting + 1;
          }
        } else {
          HandOver();
        }
      } else if Erases(b) {
        if line != [] {
          Erase();
          echo' := echo' + BELL_ERASE;
        }
      } else if Plain(b) && waiting + |line| + 2 <= LINE_MAX {
        line := line + [b];
        echo' := echo' + [b];
      }
    }

    /** Removes the last character of the line. */
    method Erase()
      modifies this`line
      ensures line == Erased(old(line))
    {
      while line != [] && 0x80 <= line[|line| - 1] <= 0xBF
        invariant Erased(line) == Erased(old(line))
        decreases |line|
      {
        line := line[..|line| - 1];
      }
      if line != [] {
        line := line[..|line| - 1];
      }
    }

    /** Moves the line being typed to the ones that wait: nothing typed is lost, and a line that may be
        handed over keeps the discipline in bounds. */
    method HandOver()
      modifies this
      ensures State() == HandedOver(old(State()))
      ensures Typed(State()) == Typed(old(State()))
      ensures MayHandOver(old(State())) ==> LinesOk(State())
    {
      HandedOverTyped(State());
      if MayHandOver(State()) { HandOverOk(State()); }
      waiting := waiting + |line|;
      ready := ready + [Some(line)];
      line := [];
    }

    /** Reads from the oldest line that waits into a buffer of `n` bytes. */
    method Read(n: nat) returns (r: Option<Bytes>)
      requires LinesOk(State())
      modifies this
      ensures State() == AfterRead(old(State()), n) && r == ReadBytes(old(State()), n) && LinesOk(State())
      ensures r.Some? ==> Typed(old(State())) == r.value + Typed(State())
      ensures r.None? <==> n > 0 && old(ready) == []
    {
      ReadOk(State(), n);
      if n == 0 {
        return Some([]);
      }
      if ready == [] {
        return None;
      }
      FrontCounts(State());
      match ready[0]
      case None =>
        ready := ready[1..];
        waiting := waiting - 1;
        return Some([]);
      case Some(l) =>
        var k := if n < |l| then n else |l|;
        if k == |l| {
          ready := ready[1..];
        } else {
          ready := ready[0 := Some(l[k..])];
        }
        waiting := waiting - k;
        return Some(if k == |l| then l else l[..k]);
    }

    /** Everything typed and not read; ends of input are dropped. */
    method TakeAll() returns (out: Bytes)
      modifies this
      ensures State() == NO_LINES && out == Typed(old(State()))
    {
      out := [];
      for i := 0 to |ready|
        invariant State() == old(State()) && out == Flat(ready[..i])
      {
        assert ready[..i + 1] == ready[..i] + [ready[i]];
        WaitingMore(ready[..i], ready[i]);
        if ready[i].Some? {
          out := out + ready[i].value;
        }
      }
      assert ready[..|ready|] == ready;
      out := out + line;
      line, ready, waiting, afterCr := [], [], 0, false;
    }
  }

  lemma FrontCounts(s: Lines)
    requires LinesOk(s) && s.ready != []
    ensures Size(s.ready[0]) <= s.waiting
  {
    FromFront(s.ready);
  }

  // ----- the input queue -----

  /** A raw Ctrl-C can only be the first byte: it dropped what came before it. */
  ghost predicate OnlyFirst(bytes: Bytes) {
    forall i :: 0 < i < |bytes| ==> bytes[i] != INTERRUPT
  }

  ghost predicate HasInterrupt(keys: seq<Bytes>) {
    [INTERRUPT] in keys
  }

  function Least(a: nat, b: nat): nat {
    if a < b then a else b
  }

  /** All an input queue holds. */
  datatype Queue = Queue(bytes: Bytes, takenCr: bool, echoed: nat, sequence: Bytes, since: nat, lineMode: bool,
                         lines: Lines, echo: Bytes, interrupted: bool)

  class InputQueue {
    /** Raw input. */
    var bytes: Bytes
    /** The last raw byte taken was a CR. */
    var takenCr: bool
    /** How many of `bytes`, from the first, the line discipline echoed already. */
    var echoed: nat
    /** An escape sequence arriving over serial, and when its `ESC` came. */
    var sequence: Bytes
    var sequenceSince: nat
    var lineMode: bool
    const line: LineDiscipline
    var echo: Bytes
    /** A Ctrl-C typed in line mode. */
    var interrupted: bool

    /** Line mode holds no raw bytes and raw mode no lines; what is kept is bounded. */
    ghost predicate Valid()
      reads this, line
    {
      && (lineMode ==> bytes == [] && !takenCr && echoed == 0)
      && (!lineMode ==> line.State() == NO_LINES && !interrupted)
      && OnlyFirst(bytes) && |bytes| <= QUEUE_MAX && echoed <= |bytes|
      && LinesOk(line.State())
      && INTERRUPT !in sequence && |sequence| < SEQUENCE_MAX && (sequence != [] ==> sequence[0] == ESC)
    }

    ghost function State(): Queue
      reads this, line
    {
      Queue(bytes, takenCr, echoed, sequence, sequenceSince, lineMode, line.State(), echo, interrupted)
    }

    /** Everything typed and not read. */
    ghost function Unread(): Bytes
      reads this, line
    {
      if lineMode then Typed(line.State()) else bytes
    }

    constructor ()
      ensures Valid() && !lineMode && Unread() == [] && echo == [] && !takenCr && !interrupted && fresh(line)
    {
      line := new LineDiscipline();
      bytes, takenCr, echoed, sequence, sequenceSince := [], false, 0, [], 0;
      lineMode, echo, interrupted := false, [], false;
      new;
      WaitingNone();
    }

    /** Gives the discipline the keys of `input`, one by one. */
    method Feed(input: Bytes, loud: bool)
      requires LinesOk(line.State())
      modifies this`echo, this`interrupted, line
      ensures line.State() == KeyedAll(old(line.State()), Keys(input)) && LinesOk(line.State())
      ensures echo == old(echo) + if loud then ShownAll(old(line.State()), Keys(input)) else []
      ensures interrupted == (old(interrupted) || HasInterrupt(Keys(input)))
    {
      hide Keyed, Shown, KeyedAll, ShownAll, LinesOk, Keys, HasInterrupt, KeyLen;
      var rest := input;
      ghost var done: seq<Bytes> := [];
      FeedStart(line.State(), input);
      while rest != []
        invariant Keys(input) == done + Keys(rest) && LinesOk(line.State())
        invariant line.State() == KeyedAll(old(line.State()), done)
        invariant echo == old(echo) + if loud then ShownAll(old(line.State()), done) else []
        invariant interrupted == (old(interrupted) || HasInterrupt(done))
        decreases |rest|
      {
        var n := KeyLen(rest);
        var key := rest[..n];
        KeyedMore(old(line.State()), done, key);
        KeysStep(done, rest);
        var hit, shown := line.Input(key, if loud then echo else []);
        if loud {
          echo := shown;
        }
        interrupted := interrupted || hit;
        done := done + [key];
        rest := rest[n..];
      }
      FeedStart(line.State(), rest);
      assert done + [] == done;
    }

    /** Nothing else changed: in raw mode neither the discipline nor the screen, in line mode no raw input. */
    twostate predicate Kept()
      reads this, line
    {
      if lineMode then
        State() == old(State()).(lines := line.State(), echo := echo, interrupted := interrupted, sequence := sequence,
                                 since := sequenceSince)
      else State() == old(State()).(bytes := bytes, echoed := echoed, sequence := sequence, since := sequenceSince)
    }

    /** In line mode, every key of `input` went to the discipline, once, in order. */
    twostate predicate Took(input: Bytes)
      reads this, line
    {
      && line.State() == KeyedAll(old(line.State()), Keys(input))
      && echo == old(echo) + ShownAll(old(line.State()), Keys(input))
      && interrupted == (old(interrupted) || HasInterrupt(Keys(input)))
    }

    /** Adds input; what does not fit is dropped. A Ctrl-C always fits: it drops what was typed before
        it, and a half-arrived serial sequence. */
    method Push(input: Bytes)
      requires Valid()
      modifies this`bytes, this`echoed, this`sequence, this`echo, this`interrupted, line
      ensures Valid()
      ensures !lineMode ==>
              bytes == Capped((if INTERRUPT in input then [] else old(bytes)) + FromLast(input)) && echo == old(echo)
      ensures !lineMode ==> echoed == if INTERRUPT in input then 0 else old(echoed)
      ensures lineMode ==> Took(input)
      ensures sequence == if INTERRUPT in input then [] else old(sequence)
      ensures Kept()
    {
      hide KeyedAll, ShownAll, LinesOk, Keys, HasInterrupt, FromLast, Capped, OnlyFirst;
      if lineMode {
        if INTERRUPT in input {
          sequence := [];
        }
        Feed(input, true);
        return;
      }
      var last := LastInterrupt(input);
      var kept := input;
      if last.Some? {
        bytes, echoed, sequence := [], 0, [];
        kept := input[last.value..];
        SuffixFirst(input, last.value);
        FromLastAt(input, last.value);
      } else {
        FromLastNone(input);
      }
      CappedIs(bytes, kept);
      FirstOnly(bytes, kept);
      var room := QUEUE_MAX - |bytes|;
      bytes := bytes + kept[..Least(|kept|, room)];
    }

    /** Adds a whole escape sequence, or in raw mode without room nothing. */
    method PushWhole(s: Bytes)
      requires Valid() && INTERRUPT !in s && (lineMode ==> |bytes| + |s| <= QUEUE_MAX)
      modifies this`bytes, this`echoed, this`sequence, this`echo, this`interrupted, line
      ensures Valid() && Kept() && sequence == old(sequence) && (!lineMode ==> echoed == old(echoed))
      ensures if lineMode then Took(s)
              else bytes == if |old(bytes)| + |s| <= QUEUE_MAX then old(bytes) + s else old(bytes)
    {
      hide KeyedAll, ShownAll, LinesOk, Keys, HasInterrupt, Capped, FromLast, OnlyFirst;
      NoInterrupt(s);
      if |bytes| + |s| <= QUEUE_MAX {
        CappedIs(bytes, s);
        Push(s);
      }
    }

    /** Adds one byte from the serial line that came at `now`. An escape sequence goes in whole or not at
        all; Ctrl-C ends it. */
    method PushSerial(b: byte, now: nat)
      requires Valid()
      modifies this`bytes, this`echoed, this`sequence, this`sequenceSince, this`echo, this`interrupted, line
      ensures Valid()
      ensures Kept() && (!lineMode ==> echoed == if b == INTERRUPT then 0 else old(echoed))
      // An escape sequence is as old as its `ESC`.
      ensures sequenceSince == if b == ESC && old(sequence) == [] then now else old(sequenceSince)
      ensures b == INTERRUPT ==> sequence == [] && (if lineMode then Took([b]) else bytes == [INTERRUPT])
      ensures b != INTERRUPT && old(sequence) == [] && b != ESC ==>
                sequence == [] && (if lineMode then Took([b]) else bytes == Capped(old(bytes) + [b]))
      ensures b != INTERRUPT && (old(sequence) != [] || b == ESC) ==>
                var s := old(sequence) + [b];
                if Complete(s) then
                  && sequence == []
                  && (if lineMode then Took(s)
                      else bytes == if |old(bytes)| + |s| <= QUEUE_MAX then old(bytes) + s else old(bytes))
                else
                  && bytes == old(bytes) && echo == old(echo) && line.State() == old(line.State())
                  && interrupted == old(interrupted) && sequence == if |s| >= SEQUENCE_MAX then [] else s
    {
      hide KeyedAll, ShownAll, LinesOk, Keys, HasInterrupt, Capped, FromLast, OnlyFirst;
      if b == INTERRUPT || (sequence == [] && b != ESC) {
        OneByte(b);
        Push([b]);
        CappedIs([], [b]);
        assert [] + [b] == [b];
        return;
      }
      if sequence == [] {
        sequenceSince := now;
      }
      sequence := sequence + [b];
      if Complete(sequence) {
        var s := sequence;
        sequence := [];
        PushWhole(s);
      } else if |sequence| >= SEQUENCE_MAX {
        sequence := [];
      }
    }

    /** Ends an escape sequence whose rest has not come in time: an `ESC` alone is the Escape key and
        goes in, more is dropped. */
    method Expire(now: nat)
      requires Valid()
      modifies this`bytes, this`echoed, this`sequence, this`echo, this`interrupted, line
      ensures Valid()
      ensures old(sequence) == [] || now < old(sequenceSince) + ESC_TIMEOUT_MS ==> sequence == old(sequence)
      ensures old(sequence) != [] && now >= old(sequenceSince) + ESC_TIMEOUT_MS ==> sequence == []
      ensures if old(sequence) == [ESC] && now >= old(sequenceSince) + ESC_TIMEOUT_MS
              then if lineMode then Took([ESC]) else bytes == Capped(old(bytes) + [ESC])
              else
                && bytes == old(bytes) && echo == old(echo)
                && line.State() == old(line.State()) && interrupted == old(interrupted)
      ensures Kept() && (!lineMode ==> echoed == old(echoed))
    {
      hide KeyedAll, ShownAll, LinesOk, Keys, HasInterrupt;
      if sequence == [] || now < sequenceSince + ESC_TIMEOUT_MS {
        return;
      }
      var s := sequence;
      sequence := [];
      if s == [ESC] {
        OneByte(ESC);
        Push(s);
      }
    }

    /** The oldest raw byte. */
    method Pop() returns (b: Option<byte>)
      requires Valid()
      modifies this`bytes, this`takenCr, this`echoed
      ensures Valid()
      ensures b.None? <==> old(bytes) == []
      ensures b.None? ==> State() == old(State())
      ensures b.Some? ==>
              old(bytes) == [b.value] + bytes && (takenCr <==> b.value == CR)
              && echoed == if old(echoed) > 0 then old(echoed) - 1 else 0
    {
      if bytes == [] {
        return None;
      }
      b := Some(bytes[0]);
      bytes := bytes[1..];
      takenCr := b.value == CR;
      echoed := if echoed > 0 then echoed - 1 else 0;
    }

    /** Takes a Ctrl-C typed in raw mode out of the input, if one waits. */
    method TakeRawInterrupt() returns (had: bool)
      requires Valid()
      modifies this`bytes, this`takenCr, this`echoed
      ensures Valid() && (had <==> INTERRUPT in old(bytes))
      ensures bytes == if had then old(bytes)[1..] else old(bytes)
      ensures takenCr == (old(takenCr) && !had)
              && echoed == if had && old(echoed) > 0 then old(echoed) - 1 else old(echoed)
    {
      if bytes != [] && bytes[0] == INTERRUPT {
        var b := Pop();
        return true;
      }
      return false;
    }

    /** Whether a Ctrl-C was typed in line mode since the last call, for a foreground group that is
        `alive`: one with no process left leaves it for whoever takes the console back. */
    method TakeLineInterruptFor(alive: bool) returns (had: bool)
      requires Valid()
      modifies this`interrupted
      ensures Valid() && had == (alive && old(interrupted)) && interrupted == (old(interrupted) && !alive)
    {
      had := alive && interrupted;
      if alive {
        interrupted := false;
      }
    }

    method TakeEcho() returns (out: Bytes)
      requires Valid()
      modifies this`echo
      ensures Valid() && out == old(echo) && echo == []
    {
      out := echo;
      echo := [];
    }

    /** In line mode the next line, in raw mode as many bytes as there are, up to `n`: always the oldest
        bytes that wait. */
    method Read(n: nat) returns (r: Option<Bytes>)
      requires Valid()
      modifies this`bytes, this`takenCr, this`echoed, line
      ensures Valid()
      ensures r.Some? ==> |r.value| <= n && old(Unread()) == r.value + Unread()
      ensures r.None? ==> n > 0 && (if lineMode then line.ready == [] else bytes == [])
      // In line mode a line's bytes, as the discipline reads them; in raw mode as many as there are.
      ensures lineMode ==> r == ReadBytes(old(line.State()), n) && line.State() == AfterRead(old(line.State()), n)
      ensures r.None? || n == 0 || lineMode ==> State() == old(State()).(lines := line.State())
      ensures r.None? || n == 0 ==> line.State() == old(line.State())
      ensures r.Some? && n > 0 && !lineMode ==>
                && |r.value| == Least(n, |old(bytes)|) > 0 && takenCr == (r.value[|r.value| - 1] == CR)
                && echoed == (if old(echoed) > |r.value| then old(echoed) - |r.value| else 0)
                && line.State() == old(line.State())
    {
      hide Waiting, Flat;
      if lineMode {
        r := line.Read(n);
        return;
      }
      if n == 0 {
        return Some([]);
      }
      if bytes == [] {
        return None;
      }
      var k := Least(n, |bytes|);
      r := Some(bytes[..k]);
      bytes := bytes[k..];
      takenCr := r.value[k - 1] == CR;
      echoed := if echoed > k then echoed - k else 0;
    }

    /** Line mode (`true`) or raw mode; the previous one. */
    method SetLineMode(on: bool) returns (was: bool)
      requires Valid()
      modifies this, line
      ensures Valid() && was == old(lineMode) && lineMode == on
      ensures on == was ==> State() == old(State())
      // To raw mode: what was typed and not read is raw input again, already echoed.
      ensures was && !on ==>
                && bytes == Capped((if old(interrupted) then [INTERRUPT] else []) + Typed(old(line.State())))
                && echoed == |bytes| && echo == old(echo) && !takenCr && !interrupted && line.State() == NO_LINES
                && sequence == (if old(interrupted) then [] else old(sequence)) && sequenceSince == old(sequenceSince)
      // To line mode: what was typed ahead goes to the discipline, what it echoed already in silence.
      ensures !was && on ==>
                var quiet, start := old(bytes)[..old(echoed)], NO_LINES.(afterCr := old(takenCr));
                var loud, mid := old(bytes)[old(echoed)..], KeyedAll(start, Keys(quiet));
                && line.State() == KeyedAll(mid, Keys(loud)) && echo == old(echo) + ShownAll(mid, Keys(loud))
                && interrupted == (HasInterrupt(Keys(quiet)) || HasInterrupt(Keys(loud)))
                && bytes == [] && !takenCr && echoed == 0 && sequenceSince == old(sequenceSince)
                && sequence == (if INTERRUPT in loud then [] else old(sequence))
    {
      hide KeyedAll, ShownAll, LinesOk, Keys, HasInterrupt, Capped, OnlyFirst;
      was := lineMode;
      if on && !was {
        ToLine();
      } else if !on && was {
        ToRaw();
      }
    }

    method ToLine()
      requires Valid() && !lineMode
      modifies this, line
      ensures Valid() && lineMode
      ensures var quiet, start := old(bytes)[..old(echoed)], NO_LINES.(afterCr := old(takenCr));
              var loud, mid := old(bytes)[old(echoed)..], KeyedAll(start, Keys(quiet));
              && line.State() == KeyedAll(mid, Keys(loud)) && echo == old(echo) + ShownAll(mid, Keys(loud))
              && interrupted == (HasInterrupt(Keys(quiet)) || HasInterrupt(Keys(loud)))
              && bytes == [] && !takenCr && echoed == 0 && sequenceSince == old(sequenceSince)
              && sequence == (if INTERRUPT in loud then [] else old(sequence))
    {
      hide KeyedAll, ShownAll, LinesOk, Keys, HasInterrupt, Capped, FromLast;
      AfterCrOk(line.State());
      var ahead, quiet := bytes, Least(echoed, |bytes|);
      lineMode := true;
      line.afterCr := takenCr;
      bytes, takenCr, echoed := [], false, 0;
      Feed(ahead[..quiet], false);
      Push(ahead[quiet..]);
    }

    method ToRaw()
      requires Valid() && lineMode
      modifies this, line
      ensures Valid() && !lineMode
      ensures bytes == Capped((if old(interrupted) then [INTERRUPT] else []) + Typed(old(line.State())))
      ensures echoed == |bytes| && echo == old(echo) && !takenCr && !interrupted && line.State() == NO_LINES
      ensures sequence == (if old(interrupted) then [] else old(sequence)) && sequenceSince == old(sequenceSince)
    {
      hide KeyedAll, ShownAll, LinesOk, Keys, HasInterrupt, Capped, FromLast, Waiting, Flat;
      TypedRetypable(line.State());
      lineMode := false;
      var typed := line.TakeAll();
      NoInterrupt(typed);
      WaitingOk();
      var had := interrupted;
      interrupted := false;
      if had {
        OneByte(INTERRUPT);
        CappedOne();
        Push([INTERRUPT]);
      }
      Push(typed);
      CappedLength(bytes);
      echoed := |bytes|;
    }
  }

  lemma CappedOne()
    ensures Capped([] + [INTERRUPT]) == [INTERRUPT]
  {
  }

  lemma CappedLength(bytes: Bytes)
    ensures |Capped(bytes)| <= QUEUE_MAX
  {
  }

  /** The first `QUEUE_MAX` bytes. */
  function Capped(bytes: Bytes): Bytes {
    bytes[..Least(|bytes|, QUEUE_MAX)]
  }

  lemma CappedIs(bytes: Bytes, more: Bytes)
    requires |bytes| <= QUEUE_MAX
    ensures Capped(bytes + more) == bytes + more[..Least(|more|, QUEUE_MAX - |bytes|)]
  {
  }

  /** The part of `input` from its last Ctrl-C on, all of it without one. */
  function FromLast(input: Bytes): Bytes {
    if input == [] then []
    else if input[|input| - 1] == INTERRUPT then [INTERRUPT]
    else FromLast(input[..|input| - 1]) + [input[|input| - 1]]
  }

  lemma {:induction false} FromLastNone(input: Bytes)
    requires INTERRUPT !in input
    ensures FromLast(input) == input
  {
    if input != [] {
      var n := |input| - 1;
      assert input[n] in input;
      FromLastNone(input[..n]);
      assert input == input[..n] + [input[n]];
    }
  }

  lemma {:induction false} FromLastAt(input: Bytes, i: nat)
    requires i < |input| && input[i] == INTERRUPT && forall j :: i < j < |input| ==> input[j] != INTERRUPT
    ensures FromLast(input) == input[i..]
  {
    var n := |input| - 1;
    if i < n {
      FromLastAt(input[..n], i);
      assert input[..n][i..] + [input[n]] == input[i..];
    }
  }

  method LastInterrupt(input: Bytes) returns (r: Option<nat>)
    ensures r.Some? ==>
            r.value < |input| && input[r.value] == INTERRUPT
            && forall j :: r.value < j < |input| ==> input[j] != INTERRUPT
    ensures r.None? <==> INTERRUPT !in input
  {
    var i := |input|;
    while i > 0
      invariant 0 <= i <= |input| && forall j :: i <= j < |input| ==> input[j] != INTERRUPT
    {
      i := i - 1;
      if input[i] == INTERRUPT {
        return Some(i);
      }
    }
    return None;
  }

  lemma SuffixFirst(input: Bytes, i: nat)
    requires i < |input| && forall j :: i < j < |input| ==> input[j] != INTERRUPT
    ensures OnlyFirst(input[i..]) && OnlyFirst([])
  {
  }

  lemma FirstOnly(bytes: Bytes, kept: Bytes)
    requires OnlyFirst(bytes) && |bytes| <= QUEUE_MAX
    requires INTERRUPT !in kept || (bytes == [] && OnlyFirst(kept))
    ensures OnlyFirst(bytes + kept[..Least(|kept|, QUEUE_MAX - |bytes|)])
  {
  }

  /** A serial escape sequence is complete: `ESC` and one byte, or `ESC [` up to its final byte. */
  predicate Complete(s: Bytes) {
    (|s| == 2 && s[1] != BRACKET) || (|s| > 2 && 0x40 <= s[|s| - 1] <= 0x7E)
  }

  lemma OneByte(b: byte)
    ensures FromLast([b]) == [b] && (INTERRUPT in [b] <==> b == INTERRUPT)
  {
    assert [b][..0] == [];
  }

  lemma NoInterrupt(s: Bytes)
    requires INTERRUPT !in s
    ensures FromLast(s) == s
  {
    FromLastNone(s);
  }

  lemma AfterCrOk(s: Lines)
    requires LinesOk(s)
    ensures LinesOk(s.(afterCr := false)) && LinesOk(s.(afterCr := true))
  {
  }

  lemma WaitingOk()
    ensures LinesOk(NO_LINES)
  {
    WaitingNone();
  }

  lemma FeedStart(s: Lines, input: Bytes)
    ensures KeyedAll(s, []) == s && ShownAll(s, []) == [] && !HasInterrupt([]) && Keys(input) == [] + Keys(input)
            && Keys([]) == []
  {
  }

  lemma KeysStep(done: seq<Bytes>, rest: Bytes)
    requires rest != []
    ensures done + Keys(rest) == (done + [rest[..KeyLen(rest)]]) + Keys(rest[KeyLen(rest)..])
    ensures HasInterrupt(done + [rest[..KeyLen(rest)]]) <==> HasInterrupt(done) || rest[..KeyLen(rest)] == [INTERRUPT]
  {
    hide KeyLen, HasInterrupt;
    var n := KeyLen(rest);
    assert Keys(rest) == [rest[..n]] + Keys(rest[n..]);
    OneKeyMore(done, rest[..n], Keys(rest[n..]));
  }

  lemma OneKeyMore(done: seq<Bytes>, key: Bytes, tail: seq<Bytes>)
    ensures done + ([key] + tail) == (done + [key]) + tail
    ensures HasInterrupt(done + [key]) <==> HasInterrupt(done) || key == [INTERRUPT]
  {
    if HasInterrupt(done) {
      var i :| 0 <= i < |done| && done[i] == [INTERRUPT];
      assert (done + [key])[i] == [INTERRUPT];
    }
    if key == [INTERRUPT] {
      assert (done + [key])[|done|] == [INTERRUPT];
    }
  }

  lemma KeyedMore(s: Lines, keys: seq<Bytes>, key: Bytes)
    ensures KeyedAll(s, keys + [key]) == Keyed(KeyedAll(s, keys), key)
    ensures ShownAll(s, keys + [key]) == ShownAll(s, keys) + Shown(KeyedAll(s, keys), key)
  {
    assert (keys + [key])[..|keys|] == keys;
  }

  // ----- there and back -----

  lemma {:induction false} KeyedFrom(s: Lines, key: Bytes, keys: seq<Bytes>)
    ensures KeyedAll(s, [key] + keys) == KeyedAll(Keyed(s, key), keys)
  {
    if keys == [] {
      assert [key] + keys == [key];
      assert [key][..0] == [];
    } else {
      var n := |keys| - 1;
      KeyedFrom(s, key, keys[..n]);
      assert ([key] + keys)[..n + 1] == [key] + keys[..n];
    }
  }

  /** Typed input handed back, a Ctrl-C before it if one waits: typed again it gives the same lines. */
  lemma TypedAgain(typed: Bytes, interrupted: bool)
    requires Retypable(typed) && ESC !in typed && INTERRUPT !in typed
    ensures var raw := Capped((if interrupted then [INTERRUPT] else []) + typed);
            var s := KeyedAll(NO_LINES, Keys(raw));
            && Typed(s) == typed[..Least(|typed|, if interrupted then QUEUE_MAX - 1 else QUEUE_MAX)]
            && (HasInterrupt(Keys(raw)) <==> interrupted)
  {
    hide KeyedAll, Waiting, Flat, Keyed, LinesOk, Typed, Keys, Plain;
    var raw := Capped((if interrupted then [INTERRUPT] else []) + typed);
    var kept := typed[..Least(|typed|, if interrupted then QUEUE_MAX - 1 else QUEUE_MAX)];
    assert raw == (if interrupted then [INTERRUPT] else []) + kept;
    assert ESC !in kept && INTERRUPT !in kept;
    assert Retypable(kept);
    KeysPlain(kept);
    KeysPlain(raw);
    Retyped(kept, Keys(kept));
    if interrupted {
      assert Keys(raw) == [[INTERRUPT]] + Keys(kept);
      KeyedFrom(NO_LINES, [INTERRUPT], Keys(kept));
      InterruptNothing();
      assert Keys(raw)[0] == [INTERRUPT];
    } else {
      assert raw == kept;
      forall k | k in Keys(raw)
        ensures k != [INTERRUPT]
      {
        var i :| 0 <= i < |raw| && Keys(raw)[i] == k;
        assert kept[i] in kept;
      }
    }
  }

  lemma InterruptNothing()
    ensures Keyed(NO_LINES, [INTERRUPT]) == NO_LINES
  {
  }

  /** From line mode to raw mode and back, with nothing typed or read between: the unread bytes are
      kept and nothing is echoed, a Ctrl-C not yet taken waits still. The last byte of a full
      discipline is lost exactly when such a Ctrl-C takes its place. */
  method RawAndBack(q: InputQueue)
    requires q.Valid() && q.lineMode
    modifies q, q.line
    ensures q.Valid() && q.lineMode && q.echo == old(q.echo) && q.interrupted == old(q.interrupted)
    ensures q.Unread() == old(q.Unread()) <==> !(old(q.interrupted) && |old(q.Unread())| == LINE_MAX)
    ensures var most := if old(q.interrupted) then QUEUE_MAX - 1 else QUEUE_MAX;
            q.Unread() == old(q.Unread())[..Least(|old(q.Unread())|, most)]
  {
    hide KeyedAll, ShownAll, LinesOk, Keys, HasInterrupt, Waiting, Flat, Capped, OnlyFirst;
    ghost var typed, had := q.Unread(), q.interrupted;
    TypedRetypable(q.line.State());
    var was := q.SetLineMode(false);
    ghost var raw := q.bytes;
    TypedAgain(typed, had);
    assert raw[..|raw|] == raw && raw[|raw|..] == [];
    was := q.SetLineMode(true);
    FeedStart(KeyedAll(NO_LINES, Keys(raw)), []);
  }

  /** The keys of Ctrl-C and of `n` Enters, on a discipline that holds nothing. */
  lemma EntersTyped(enters: Bytes)
    requires |enters| <= LINE_MAX && forall i :: 0 <= i < |enters| ==> enters[i] == LF
    ensures Typed(KeyedAll(NO_LINES, Keys(enters))) == enters
    ensures KeyedAll(NO_LINES, Keys([])) == NO_LINES && KeyedAll(NO_LINES, Keys([INTERRUPT])) == NO_LINES
    ensures HasInterrupt(Keys([INTERRUPT]))
  {
    hide Keyed, Waiting, Flat;
    KeysPlain(enters);
    Retyped(enters, Keys(enters));
    KeysPlain([INTERRUPT]);
    assert Keys([INTERRUPT]) == [[INTERRUPT]];
    assert [[INTERRUPT]][..0] == [];
    InterruptNothing();
    assert Keys([INTERRUPT])[0] == [INTERRUPT];
  }

  /** A Ctrl-C typed before 4096 Enters, for a group that is dead: it is pending over a full discipline,
      and the round trip loses the last byte. */
  method LostByte() returns (q: InputQueue, ghost before: Bytes)
    ensures fresh(q) && fresh(q.line) && q.Valid() && q.lineMode && q.interrupted
    ensures |before| == LINE_MAX && q.Unread() == before[..LINE_MAX - 1] != before
  {
    hide KeyedAll, ShownAll, LinesOk, Keys, HasInterrupt, Capped, OnlyFirst, Waiting, Flat;
    var enters := seq(LINE_MAX, _ => LF);
    EntersTyped(enters);
    q := new InputQueue();
    var was := q.SetLineMode(true);
    q.Push([INTERRUPT]);
    q.Push(enters);
    var had := q.TakeLineInterruptFor(false);
    before := q.Unread();
    assert q.Valid() && q.lineMode && q.interrupted && before == enters;
    RawAndBack(q);
  }

  /** A Ctrl-C that a dead group leaves: it stays pending, and after the switch to raw mode whoever reads
      there takes it, once, before everything typed. */
  method InterruptHandedOn(q: InputQueue) returns (dead: bool, taken: bool, again: bool)
    requires q.Valid() && q.lineMode
    modifies q, q.line
    ensures q.Valid() && !q.lineMode && !dead && !again
    ensures taken <==> old(q.interrupted)
    ensures q.bytes == old(q.Unread())[..Least(|old(q.Unread())|, if taken then QUEUE_MAX - 1 else QUEUE_MAX)]
  {
    hide KeyedAll, ShownAll, LinesOk, Keys, HasInterrupt, OnlyFirst, Waiting, Flat;
    ghost var typed := q.Unread();
    TypedRetypable(q.line.State());
    dead := q.TakeLineInterruptFor(false);
    var was := q.SetLineMode(false);
    ghost var raw := q.bytes;
    ghost var most := if old(q.interrupted) then QUEUE_MAX - 1 else QUEUE_MAX;
    assert raw == (if old(q.interrupted) then [INTERRUPT] else []) + typed[..Least(|typed|, most)];
    taken := q.TakeRawInterrupt();
    again := q.TakeRawInterrupt();
  }
}
