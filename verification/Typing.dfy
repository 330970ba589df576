/** What typing does, key by key: the line discipline (kernel/src/line.rs) is an editor of whole characters. */
module Typing {
  import opened Wrappers
  import opened Le
  import opened Console

  // ----- an editor of characters -----

  /** What is struck: a character, Backspace, Enter, Ctrl-D, Ctrl-C, or a key without a meaning. */
  datatype Stroke = Char(c: Bytes) | Back(b: byte) | Enter(b: byte) | EndOfInput | CtrlC | Other(key: Bytes)

  predicate Continues(b: byte) {
    0x80 <= b <= 0xBF
  }

  /** A character: one byte, or a first byte and continuation bytes. */
  ghost predicate IsChar(c: Bytes) {
    && c != [] && (c[0] == 0x09 || 0x20 <= c[0] <= 0x7E || c[0] >= 0xC0)
    && forall i :: 0 < i < |c| ==> Continues(c[i])
  }

  ghost predicate StrokeOk(k: Stroke) {
    match k
    case Char(c) => IsChar(c)
    case Back(b) => b == 0x7F || b == 0x08
    case Enter(b) => b == 0x0D || b == 0x0A
    // Escape sequences, and control characters but tab and those above.
    case Other(key) => |key| != 1 || (key[0] < 0x20 && key[0] !in {0x03, 0x04, 0x08, 0x09, 0x0A, 0x0D})
    case _ => true
  }

  /** The characters of the line being typed, what was ended, and whether the last key was a CR. */
  datatype Editor = Editor(chars: seq<Bytes>, ended: seq<Option<Bytes>>, cr: bool)

  const BLANK: Editor := Editor([], [], false)

  function Text(chars: seq<Bytes>): Bytes {
    if chars == [] then [] else Text(chars[..|chars| - 1]) + chars[|chars| - 1]
  }

  function Struck(e: Editor, k: Stroke): Editor {
    match k
    case Char(c) => Editor(e.chars + [c], e.ended, false)
    case Back(_) => Editor(if e.chars == [] then [] else e.chars[..|e.chars| - 1], e.ended, false)
    case Enter(b) =>
      // CR LF is one Enter.
      if b == 0x0A && e.cr then e.(cr := false)
      else Editor([], e.ended + [Some(Text(e.chars) + [0x0A])], b == 0x0D)
    case EndOfInput => Editor([], e.ended + [if e.chars == [] then None else Some(Text(e.chars))], false)
    case CtrlC => BLANK
    case Other(_) => e.(cr := false)
  }

  /** What the screen shows for it. */
  function Echo(e: Editor, k: Stroke): Bytes {
    match k
    case Char(c) => c
    case Back(_) => if e.chars == [] then [] else [0x08, 0x20, 0x08]
    case Enter(b) => if b == 0x0A && e.cr then [] else [0x0A]
    case _ => []
  }

  /** The bytes of a stroke, cut into keys. */
  function KeysOf(k: Stroke): seq<Bytes> {
    match k
    case Char(c) => seq(|c|, i requires 0 <= i < |c| => [c[i]])
    case Back(b) => [[b]]
    case Enter(b) => [[b]]
    case EndOfInput => [[0x04]]
    case CtrlC => [[0x03]]
    case Other(key) => [key]
  }

  /** The discipline an editor is. */
  function Seen(e: Editor): Lines {
    Lines(Text(e.chars), e.ended, Waiting(e.ended), e.cr)
  }

  function Used(e: Editor): nat {
    Waiting(e.ended) + |Text(e.chars)|
  }

  /** There is room for the stroke: for a character and the Enter after it, or for one byte more. */
  ghost predicate Fits(e: Editor, k: Stroke) {
    match k
    case Char(c) => Used(e) + |c| + 1 <= LINE_MAX
    case Enter(_) => Used(e) < LINE_MAX
    case EndOfInput => Used(e) < LINE_MAX
    case _ => true
  }

  ghost predicate EditorOk(e: Editor) {
    forall i :: 0 <= i < |e.chars| ==> IsChar(e.chars[i])
  }

  // ----- one stroke -----

  /** Keys one after the other. */
  lemma {:induction false} KeyedJoin(s: Lines, a: seq<Bytes>, b: seq<Bytes>)
    ensures KeyedAll(s, a + b) == KeyedAll(KeyedAll(s, a), b)
    ensures ShownAll(s, a + b) == ShownAll(s, a) + ShownAll(KeyedAll(s, a), b)
  {
    hide Keyed, Shown;
    if b == [] {
      assert a + b == a;
    } else {
      var n := |b| - 1;
      assert (a + b)[..|a| + n] == a + b[..n];
      KeyedJoin(s, a, b[..n]);
    }
  }

  lemma OneKey(s: Lines, key: Bytes)
    ensures KeyedAll(s, [key]) == Keyed(s, key) && ShownAll(s, [key]) == Shown(s, key)
  {
    assert [key][..0] == [];
    assert KeyedAll(s, []) == s && ShownAll(s, []) == [];
  }

  /** The room for characters, with the Enter after them. */
  function Room(s: Lines): nat {
    if s.waiting + |s.line| + 1 < LINE_MAX then LINE_MAX - 1 - s.waiting - |s.line| else 0
  }

  lemma PlainKey(s: Lines, b: byte)
    requires Plain(b)
    ensures Keyed(s, [b]) == s.(line := if Room(s) > 0 then s.line + [b] else s.line, afterCr := false)
    ensures Shown(s, [b]) == if Room(s) > 0 then [b] else []
  {
  }

  /** The bytes of characters as keys, as far as there is room: the rest is dropped. */
  lemma {:induction false} BytesTyped(s: Lines, c: Bytes, keys: seq<Bytes>)
    requires c != [] && forall i :: 0 <= i < |c| ==> Plain(c[i])
    requires |keys| == |c| && forall i :: 0 <= i < |c| ==> keys[i] == [c[i]]
    ensures var kept := c[..Least(|c|, Room(s))];
            KeyedAll(s, keys) == s.(line := s.line + kept, afterCr := false) && ShownAll(s, keys) == kept
    decreases |c|
  {
    hide Keyed, Shown, KeyedAll, ShownAll;
    var n := |c| - 1;
    assert keys == keys[..n] + [keys[n]];
    KeyedJoin(s, keys[..n], [keys[n]]);
    OneKey(KeyedAll(s, keys[..n]), keys[n]);
    PlainKey(KeyedAll(s, keys[..n]), c[n]);
    if n == 0 {
      NoKeys(s);
      assert keys[..n] == [];
    } else {
      BytesTyped(s, c[..n], keys[..n]);
      KeptMore(s, c);
    }
  }

  lemma NoKeys(s: Lines)
    ensures KeyedAll(s, []) == s && ShownAll(s, []) == []
  {
  }

  lemma KeptMore(s: Lines, c: Bytes)
    requires |c| > 1
    ensures var n, room := |c| - 1, Room(s);
            var was, kept := c[..n][..Least(n, room)], c[..Least(n + 1, room)];
            var t := s.(line := s.line + was, afterCr := false);
            && kept == (if Room(t) > 0 then was + [c[n]] else was)
            && s.line + kept == (if Room(t) > 0 then t.line + [c[n]] else t.line)
  {
    var n, room := |c| - 1, Room(s);
    if n < room { assert c[..n + 1] == c[..n] + [c[n]]; } else { assert c[..n][..room] == c[..room]; }
  }

  lemma {:induction false} ErasedTail(line: Bytes, c: Bytes)
    requires IsChar(c)
    ensures Erased(line + c) == line
    decreases |c|
  {
    var n := |c| - 1;
    assert (line + c)[..|line| + n] == line + c[..n];
    if n > 0 { ErasedTail(line, c[..n]); } else { assert line + c[..n] == line; }
  }

  /** Backspace takes exactly the last character. */
  lemma BackTakesOne(e: Editor)
    requires EditorOk(e) && e.chars != []
    ensures Erased(Text(e.chars)) == Text(e.chars[..|e.chars| - 1]) && Text(e.chars) != []
  {
    ErasedTail(Text(e.chars[..|e.chars| - 1]), e.chars[|e.chars| - 1]);
  }

  lemma CharPlain(c: Bytes)
    requires IsChar(c)
    ensures c != [] && forall i :: 0 <= i < |c| ==> Plain(c[i])
  {
  }

  lemma {:induction false} TextNone(chars: seq<Bytes>)
    requires forall i :: 0 <= i < |chars| ==> IsChar(chars[i])
    ensures Text(chars) == [] <==> chars == []
  {
  }

  lemma CharTyped(e: Editor, c: Bytes)
    requires IsChar(c) && Fits(e, Char(c))
    ensures KeyedAll(Seen(e), KeysOf(Char(c))) == Seen(Struck(e, Char(c)))
    ensures ShownAll(Seen(e), KeysOf(Char(c))) == c && Used(Struck(e, Char(c))) == Used(e) + |c|
  {
    hide Waiting, KeyedAll, ShownAll, Keyed, IsChar;
    CharPlain(c);
    BytesTyped(Seen(e), c, KeysOf(Char(c)));
    assert (e.chars + [c])[..|e.chars|] == e.chars;
    assert c[..|c|] == c;
  }

  lemma BackTyped(e: Editor, b: byte)
    requires EditorOk(e) && StrokeOk(Back(b))
    ensures Keyed(Seen(e), [b]) == Seen(Struck(e, Back(b))) && Shown(Seen(e), [b]) == Echo(e, Back(b))
    ensures Used(Struck(e, Back(b))) <= Used(e)
  {
    hide Waiting, IsChar;
    TextNone(e.chars);
    if e.chars != [] { BackTakesOne(e); }
  }

  lemma EnterTyped(e: Editor, b: byte)
    requires StrokeOk(Enter(b)) && Used(e) < LINE_MAX
    ensures Keyed(Seen(e), [b]) == Seen(Struck(e, Enter(b))) && Shown(Seen(e), [b]) == Echo(e, Enter(b))
    ensures Used(Struck(e, Enter(b))) <= Used(e) + 1
  {
    hide Waiting, Text;
    NoText();
    WaitingMore(e.ended, Some(Text(e.chars) + [0x0A]));
  }

  lemma NoText()
    ensures Text([]) == []
  {
  }

  lemma EndOfInputTyped(e: Editor)
    requires EditorOk(e) && Used(e) < LINE_MAX
    ensures Keyed(Seen(e), [0x04]) == Seen(Struck(e, EndOfInput)) && Shown(Seen(e), [0x04]) == []
    ensures Used(Struck(e, EndOfInput)) <= Used(e) + 1
  {
    hide Waiting, Text, IsChar;
    NoText();
    TextNone(e.chars);
    WaitingMore(e.ended, if e.chars == [] then None else Some(Text(e.chars)));
  }

  lemma OtherTyped(e: Editor, k: Stroke)
    requires StrokeOk(k) && (k.CtrlC? || k.Other?)
    ensures Keyed(Seen(e), KeysOf(k)[0]) == Seen(Struck(e, k)) && Shown(Seen(e), KeysOf(k)[0]) == []
  {
  }

  /** Each stroke that fits does to the discipline what it does to the editor, and shows what it should. */
  lemma StrokeTyped(e: Editor, k: Stroke)
    requires EditorOk(e) && StrokeOk(k) && Fits(e, k) && Used(e) <= LINE_MAX
    ensures KeyedAll(Seen(e), KeysOf(k)) == Seen(Struck(e, k)) && ShownAll(Seen(e), KeysOf(k)) == Echo(e, k)
    ensures EditorOk(Struck(e, k)) && Used(Struck(e, k)) <= LINE_MAX
  {
    hide Waiting, IsChar, KeyedAll, ShownAll, Keyed, Shown, Text;
    match k
    case Char(c) => CharTyped(e, c);
    case Back(b) =>
      OneKey(Seen(e), [b]);
      BackTyped(e, b);
    case Enter(b) =>
      OneKey(Seen(e), [b]);
      EnterTyped(e, b);
    case EndOfInput =>
      OneKey(Seen(e), [0x04]);
      EndOfInputTyped(e);
    case _ =>
      OneKey(Seen(e), KeysOf(k)[0]);
      OtherTyped(e, k);
      NothingUsed();
  }

  lemma NothingUsed()
    ensures Used(BLANK) == 0
  {
  }

  // ----- whole sessions -----

  function StruckAll(e: Editor, ks: seq<Stroke>): Editor {
    if ks == [] then e else Struck(StruckAll(e, ks[..|ks| - 1]), ks[|ks| - 1])
  }

  function EchoAll(e: Editor, ks: seq<Stroke>): Bytes {
    if ks == [] then [] else EchoAll(e, ks[..|ks| - 1]) + Echo(StruckAll(e, ks[..|ks| - 1]), ks[|ks| - 1])
  }

  function KeysAll(ks: seq<Stroke>): seq<Bytes> {
    if ks == [] then [] else KeysAll(ks[..|ks| - 1]) + KeysOf(ks[|ks| - 1])
  }

  /** Every stroke finds room when it comes. */
  ghost predicate AllFit(e: Editor, ks: seq<Stroke>) {
    forall i :: 0 <= i < |ks| ==> StrokeOk(ks[i]) && Fits(StruckAll(e, ks[..i]), ks[i])
  }

  /** Whatever is struck, while there is room the discipline holds and the screen shows what an editor of
      characters would. */
  lemma {:induction false} SessionTyped(e: Editor, ks: seq<Stroke>)
    requires EditorOk(e) && Used(e) <= LINE_MAX && AllFit(e, ks)
    ensures KeyedAll(Seen(e), KeysAll(ks)) == Seen(StruckAll(e, ks)) && ShownAll(Seen(e), KeysAll(ks)) == EchoAll(e, ks)
    ensures EditorOk(StruckAll(e, ks)) && Used(StruckAll(e, ks)) <= LINE_MAX
  {
    hide EditorOk, Used, Fits, StrokeOk, Seen, KeyedAll, ShownAll, KeysOf, Struck, Echo;
    if ks == [] {
      NoKeys(Seen(e));
    } else {
      var n := |ks| - 1;
      forall i | 0 <= i < n
        ensures StrokeOk(ks[..n][i]) && Fits(StruckAll(e, ks[..n][..i]), ks[..n][i])
      {
        assert ks[..n][..i] == ks[..i];
      }
      SessionTyped(e, ks[..n]);
      StrokeTyped(StruckAll(e, ks[..n]), ks[n]);
      KeyedJoin(Seen(e), KeysAll(ks[..n]), KeysOf(ks[n]));
    }
  }

  // ----- strokes as bytes -----

  /** An escape sequence: `ESC [`, parameters, a final byte. */
  ghost predicate IsSequence(key: Bytes) {
    && |key| >= 3 && key[0] == 0x1B && key[1] == 0x5B && 0x40 <= key[|key| - 1] <= 0x7E
    && forall i :: 2 <= i < |key| - 1 ==> !(0x40 <= key[i] <= 0x7E)
  }

  /** Arriving byte by byte over the serial line, it is complete with its last byte and not before. */
  lemma SequenceCompletes(key: Bytes, n: nat)
    requires IsSequence(key) && 0 < n <= |key|
    ensures Console.Complete(key[..n]) <==> n == |key|
  {
    assert key[..|key|] == key;
  }

  /** A stroke whose bytes do not run into the next ones: no Escape alone. */
  ghost predicate Complete(k: Stroke) {
    StrokeOk(k) && (k.Other? ==> IsSequence(k.key) || (|k.key| == 1 && k.key[0] != 0x1B))
  }

  function StrokeBytes(k: Stroke): Bytes {
    match k
    case Char(c) => c
    case Back(b) => [b]
    case Enter(b) => [b]
    case EndOfInput => [0x04]
    case CtrlC => [0x03]
    case Other(key) => key
  }

  function SessionBytes(ks: seq<Stroke>): Bytes {
    if ks == [] then [] else SessionBytes(ks[..|ks| - 1]) + StrokeBytes(ks[|ks| - 1])
  }

  lemma {:induction false} FinalAt(tail: Bytes, n: nat)
    requires n < |tail| && 0x40 <= tail[n] <= 0x7E && forall i :: 0 <= i < n ==> !(0x40 <= tail[i] <= 0x7E)
    ensures FinalLen(tail) == n + 1
  {
    if n > 0 { FinalAt(tail[1..], n - 1); }
  }

  lemma KeysStep(bytes: Bytes, n: nat)
    requires bytes != [] && KeyLen(bytes) == n
    ensures Keys(bytes) == [bytes[..n]] + Keys(bytes[n..])
  {
  }

  /** The bytes of a stroke, whatever follows them, are cut into its keys. */
  lemma StrokeCut(k: Stroke, rest: Bytes)
    requires Complete(k)
    ensures Keys(StrokeBytes(k) + rest) == KeysOf(k) + Keys(rest)
  {
    hide Keys;
    var b := StrokeBytes(k);
    if k.Other? && IsSequence(k.key) {
      var all := b + rest;
      assert all[..2] == b[..2];
      forall i | 0 <= i < |b| - 3 ensures !(0x40 <= all[2..][i] <= 0x7E) { assert all[2..][i] == b[i + 2]; }
      FinalAt(all[2..], |b| - 3);
      KeysStep(all, |b|);
      assert all[..|b|] == b && all[|b|..] == rest;
    } else {
      BytesCut(b, rest, KeysOf(k));
    }
  }

  lemma {:induction false} BytesCut(b: Bytes, rest: Bytes, keys: seq<Bytes>)
    requires |keys| == |b| && forall i :: 0 <= i < |b| ==> keys[i] == [b[i]] && b[i] != 0x1B
    ensures Keys(b + rest) == keys + Keys(rest)
    decreases |b|
  {
    hide Keys;
    if b == [] {
      assert b + rest == rest && keys + Keys(rest) == Keys(rest);
    } else {
      var all := b + rest;
      KeysStep(all, 1);
      assert all[..1] == [b[0]] && all[1..] == b[1..] + rest;
      BytesCut(b[1..], rest, keys[1..]);
      assert keys == [keys[0]] + keys[1..];
    }
  }

  /** So a session's bytes are cut into its keys. */
  lemma {:induction false} SessionCut(ks: seq<Stroke>, rest: Bytes)
    requires forall i :: 0 <= i < |ks| ==> Complete(ks[i])
    ensures Keys(SessionBytes(ks) + rest) == KeysAll(ks) + Keys(rest)
  {
    hide Keys, Complete, KeysOf, StrokeBytes;
    if ks == [] {
      assert SessionBytes(ks) + rest == rest;
    } else {
      var n := |ks| - 1;
      var last := StrokeBytes(ks[n]);
      assert SessionBytes(ks) + rest == SessionBytes(ks[..n]) + (last + rest);
      SessionCut(ks[..n], last + rest);
      StrokeCut(ks[n], rest);
      assert KeysAll(ks) + Keys(rest) == KeysAll(ks[..n]) + (KeysOf(ks[n]) + Keys(rest));
    }
  }

  // ----- at the limit -----

  /** A character is kept whole or dropped whole if and only if there is room for all of it or for none of its
      bytes: its bytes come as keys of their own. */
  lemma CharWholeIff(s: Lines, c: Bytes)
    requires IsChar(c)
    ensures var t := KeyedAll(s, KeysOf(Char(c)));
            t.line == s.line + c || t.line == s.line <==> Room(s) == 0 || |c| <= Room(s)
  {
    hide KeyedAll, ShownAll, Keyed, IsChar;
    CharPlain(c);
    BytesTyped(s, c, KeysOf(Char(c)));
    var kept := c[..Least(|c|, Room(s))];
    assert (s.line + kept)[|s.line|..] == kept && (s.line + c)[|s.line|..] == c;
    assert |s.line + kept| == |s.line| + |kept|;
  }

  /** With 4094 bytes typed, of a character of two bytes the first stays. */
  lemma HalfCharacter()
    ensures var s := Lines(seq(4094, _ => 0x61), [], 0, false);
            && LinesOk(s) && IsChar([0xC3, 0xA9])
            && KeyedAll(s, KeysOf(Char([0xC3, 0xA9]))).line == s.line + [0xC3]
  {
    hide KeyedAll, ShownAll, Keyed;
    var s := Lines(seq(4094, _ => 0x61), [], 0, false);
    BytesTyped(s, [0xC3, 0xA9], KeysOf(Char([0xC3, 0xA9])));
    assert [0xC3, 0xA9][..1] == [0xC3];
  }

  /** Ctrl-C drops everything typed and not read, whatever it was. */
  lemma InterruptDrops(s: Lines, a: seq<Bytes>, b: seq<Bytes>)
    ensures KeyedAll(s, a + [[INTERRUPT]] + b) == KeyedAll(NO_LINES, b)
  {
    hide KeyedAll, ShownAll;
    KeyedJoin(s, a + [[INTERRUPT]], b);
    KeyedJoin(s, a, [[INTERRUPT]]);
    OneKey(KeyedAll(s, a), [INTERRUPT]);
  }

  // ----- reading -----

  /** Reads of `n` bytes until the oldest line, or end of input, is taken. */
  function ReadLine(s: Lines, n: nat): (Bytes, Lines)
    requires n > 0 && s.ready != []
    decreases Size(s.ready[0])
  {
    var got, t := ReadBytes(s, n).value, AfterRead(s, n);
    if s.ready[0].None? || |s.ready[0].value| <= n then (got, t)
    else
      var rest := ReadLine(t, n);
      (got + rest.0, rest.1)
  }

  /** A reader gets each line whole, whatever the size of its buffer, and no byte of the next. */
  lemma {:induction false} LineComesWhole(s: Lines, n: nat)
    requires n > 0 && s.ready != [] && LinesOk(s)
    ensures ReadLine(s, n).0 == BytesOf(s.ready[0])
    ensures ReadLine(s, n).1.ready == s.ready[1..] && ReadLine(s, n).1.line == s.line && LinesOk(ReadLine(s, n).1)
    decreases Size(s.ready[0])
  {
    hide LinesOk, Waiting, Flat;
    ReadOk(s, n);
    if s.ready[0].Some? && |s.ready[0].value| > n {
      var l := s.ready[0].value;
      LineComesWhole(AfterRead(s, n), n);
      assert l == l[..n] + l[n..];
      assert AfterRead(s, n).ready[1..] == s.ready[1..];
    }
  }
}
