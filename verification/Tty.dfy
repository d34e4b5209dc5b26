/** The tty line discipline of kernel/src/dev/dev_tty.c: a ring buffer edited in place,
    a counter of complete lines, and reads that take one line each. */
module Tty {
  const BACKSPACE: char := '\U{8}'

  // ----- what is typed

  /** The finished lines and the line being typed. */
  datatype Text = Text(lines: seq<string>, cur: string)

  /** What a sequence of keys means to the person typing them. */
  function Typed(keys: seq<char>): Text {
    if keys == [] then Text([], "")
    else Edited(Typed(keys[..|keys| - 1]), keys[|keys| - 1])
  }

  /** One more key: return finishes the line, backspace takes back the last character
      of the current line if there is one, anything else is appended. */
  function Edited(t: Text, key: char): Text {
    if key == '\n' then Text(t.lines + [t.cur], "")
    else if key == BACKSPACE then Text(t.lines, if t.cur == "" then "" else t.cur[..|t.cur| - 1])
    else Text(t.lines, t.cur + [key])
  }

  lemma TypedStep(keys: seq<char>, key: char)
    ensures Typed(keys + [key]) == Edited(Typed(keys), key)
  {
    assert (keys + [key])[..|keys|] == keys;
  }

  /** A finished line never changes again, whatever is typed. */
  lemma {:induction false} FinishedLinesStay(keys: seq<char>, more: seq<char>)
    ensures Typed(keys).lines <= Typed(keys + more).lines
    decreases |more|
  {
    if more != [] {
      var (init, last) := (more[..|more| - 1], more[|more| - 1]);
      FinishedLinesStay(keys, init);
      assert keys + more == (keys + init) + [last];
      TypedStep(keys + init, last);
    } else {
      assert keys + more == keys;
    }
  }

  /** The text as one string: every finished line with its newline, then the current one. */
  function Whole(t: Text): string {
    Lines(t.lines) + t.cur
  }

  function Lines(lines: seq<string>): string {
    if lines == [] then "" else Lines(lines[..|lines| - 1]) + lines[|lines| - 1] + "\n"
  }

  /** Without backspaces the text is what was typed, key for key. */
  lemma {:induction false} PlainKeysStay(keys: seq<char>)
    requires BACKSPACE !in keys
    ensures Whole(Typed(keys)) == keys
    decreases |keys|
  {
    if keys != [] {
      var (init, last) := (keys[..|keys| - 1], keys[|keys| - 1]);
      PlainKeysStay(init);
      assert keys == init + [last];
      WholeStep(Typed(init), last);
    }
  }

  lemma WholeStep(t: Text, key: char)
    requires key != BACKSPACE
    ensures Whole(Edited(t, key)) == Whole(t) + [key]
  {
    if key == '\n' {
      assert (t.lines + [t.cur])[..|t.lines|] == t.lines;
      assert Lines(t.lines) + t.cur + "\n" + "" == Lines(t.lines) + t.cur + [key];
    } else {
      assert Lines(t.lines) + (t.cur + [key]) == Lines(t.lines) + t.cur + [key];
    }
  }

  /** Backspace undoes the key before it, unless that key ended a line or there is none. */
  lemma BackspaceUndoes(keys: seq<char>, key: char)
    ensures key != '\n' && key != BACKSPACE ==> Typed(keys + [key] + [BACKSPACE]) == Typed(keys)
    ensures Typed(keys).cur == "" ==> Typed(keys + [BACKSPACE]) == Typed(keys)
    ensures Typed(keys + ['\n'] + [BACKSPACE]) == Typed(keys + ['\n'])
  {
    TypedStep(keys, key);
    TypedStep(keys, '\n');
    TypedStep(keys, BACKSPACE);
    TypedStep(keys + [key], BACKSPACE);
    TypedStep(keys + ['\n'], BACKSPACE);
    var cur := Typed(keys).cur;
    assert (cur + [key])[..|cur|] == cur;
  }

  /** And only the text matters for what is typed next, so that these laws settle the
      meaning of every sequence of keys. */
  lemma {:induction false} OnlyTextMatters(a: seq<char>, b: seq<char>, more: seq<char>)
    requires Typed(a) == Typed(b)
    ensures Typed(a + more) == Typed(b + more)
    decreases |more|
  {
    hide Typed, Edited;
    if more == [] {
      assert a + more == a && b + more == b;
    } else {
      var (init, last) := (more[..|more| - 1], more[|more| - 1]);
      OnlyTextMatters(a, b, init);
      TypedStep(a + init, last);
      TypedStep(b + init, last);
      assert a + more == (a + init) + [last] && b + more == (b + init) + [last];
    }
  }

  predicate Plain(s: string) {
    '\0' !in s && '\n' !in s
  }

  ghost predicate PlainText(t: Text) {
    Plain(t.cur) && forall k :: 0 <= k < |t.lines| ==> Plain(t.lines[k])
  }

  /** How finished lines lie in the ring: each ends with newline and NUL. */
  function Flat(lines: seq<string>): string {
    if lines == [] then "" else Flat(lines[..|lines| - 1]) + lines[|lines| - 1] + "\n\0"
  }

  lemma FlatLast(lines: seq<string>, l: string)
    ensures Flat(lines + [l]) == Flat(lines) + l + "\n\0"
  {
    assert (lines + [l])[..|lines|] == lines;
  }

  lemma {:induction false} FlatFirst(lines: seq<string>)
    requires lines != []
    ensures Flat(lines) == (lines[0] + "\n\0") + Flat(lines[1..])
    decreases |lines|
  {
    var (init, last) := (lines[..|lines| - 1], lines[|lines| - 1]);
    if |lines| > 1 {
      hide Flat;
      FlatFirst(init);
      assert lines == init + [last] && lines[1..] == init[1..] + [last];
      FlatLast(init, last);
      FlatLast(init[1..], last);
      Regroup(lines[0] + "\n\0", Flat(init[1..]), last, "\n\0");
    } else {
      assert lines[1..] == [] && init == [];
    }
  }

  lemma Regroup(a: string, b: string, c: string, d: string)
    ensures (a + b) + c + d == a + (b + c + d)
  {
  }

  lemma FlatEnds(lines: seq<string>)
    ensures lines == [] ==> Flat(lines) == ""
    ensures lines != [] ==> Flat(lines) != "" && Flat(lines)[|Flat(lines)| - 1] == '\0'
  {
  }

  // ----- what a read takes

  /** The bytes before the first NUL. */
  function UpToNul(s: string): (r: string)
    ensures |r| <= |s| && r == s[..|r|] && '\0' !in r
    ensures |r| < |s| ==> s[|r|] == '\0'
    ensures '\0' in s ==> |r| < |s|
  {
    if s == "" || s[0] == '\0' then "" else [s[0]] + UpToNul(s[1..])
  }

  lemma {:induction false} UpToNulIs(line: string, rest: string)
    requires '\0' !in line
    ensures UpToNul(line + ['\0'] + rest) == line
    decreases |line|
  {
    if line != "" {
      assert (line + ['\0'] + rest)[1..] == line[1..] + ['\0'] + rest;
      UpToNulIs(line[1..], rest);
    }
  }

  function Cut(s: string, count: int): string {
    if count <= 0 then "" else if count < |s| then s[..count] else s
  }

  /** The longest prefix of at most count bytes. */
  lemma CutMeaning(s: string, count: int)
    ensures Cut(s, count) <= s
    ensures |Cut(s, count)| <= |s| && (count >= 0 ==> |Cut(s, count)| <= count) && (|Cut(s, count)| < |s| ==> |Cut(s, count)| >= count)
    ensures count < 0 ==> Cut(s, count) == ""
  {
  }

  lemma NothingYet(was: string, count: int)
    ensures Cut(UpToNul(was)[..0], count) == ""
  {
  }

  /** What the k-th byte of a NUL-ended line does to the part of it that is kept. */
  lemma NextOfLine(was: string, k: nat, count: int)
    requires '\0' in was && k <= |UpToNul(was)|
    ensures k < |was| && was[k..][1..] == was[k + 1..] && (was[k] == '\0' <==> k == |UpToNul(was)|)
    ensures var line := UpToNul(was);
            var out := Cut(line[..k], count);
            k < |line| ==> Cut(line[..k + 1], count) == if |out| < count then out + [was[k]] else out
    ensures k == |UpToNul(was)| ==> UpToNul(was)[..k] == UpToNul(was)
  {
    hide UpToNul;
    var line := UpToNul(was);
    if k < |line| {
      assert line[k] == was[k] && line[..k + 1] == line[..k] + [was[k]];
    }
  }

  /** What the ring should hold for these keys when taken lines have been read. */
  function RingFor(keys: seq<char>, taken: nat): string
    requires taken <= |Typed(keys).lines|
  {
    Flat(Typed(keys).lines[taken..]) + Typed(keys).cur
  }

  // ----- whole sessions

  datatype Act = Key(ch: char) | Read(count: int)

  function KeysOf(acts: seq<Act>): seq<char> {
    if acts == [] then []
    else
      var (init, last) := (acts[..|acts| - 1], acts[|acts| - 1]);
      if last.Key? then KeysOf(init) + [last.ch] else KeysOf(init)
  }

  function CountsOf(acts: seq<Act>): seq<int> {
    if acts == [] then []
    else
      var (init, last) := (acts[..|acts| - 1], acts[|acts| - 1]);
      if last.Read? then CountsOf(init) + [last.count] else CountsOf(init)
  }

  /** Reads complete only when a line is waiting. */
  predicate Legal(acts: seq<Act>) {
    acts == [] ||
    (var (init, last) := (acts[..|acts| - 1], acts[|acts| - 1]);
     Legal(init) && (last.Read? ==> |CountsOf(init)| < |Typed(KeysOf(init)).lines|))
  }

  /** How many bytes a key adds to the ring. */
  function Grows(ch: char): nat {
    if ch == '\n' then 2 else if ch == BACKSPACE then 0 else 1
  }

  /** Bytes in the ring after a session: unread lines and the current one. */
  function Load(acts: seq<Act>): nat
    requires |CountsOf(acts)| <= |Typed(KeysOf(acts)).lines|
  {
    |RingFor(KeysOf(acts), |CountsOf(acts)|)|
  }

  /** No key of the session overfills a ring of this size. */
  predicate NeverFull(acts: seq<Act>, size: nat)
    requires Legal(acts)
  {
    ReadsHaveLines(acts);
    acts == [] ||
    (var (init, last) := (acts[..|acts| - 1], acts[|acts| - 1]);
     NeverFull(init, size) && (last.Key? ==> (ReadsHaveLines(init); Load(init)) + Grows(last.ch) < size))
  }

  lemma {:induction false} ReadsHaveLines(acts: seq<Act>)
    requires Legal(acts)
    ensures |CountsOf(acts)| <= |Typed(KeysOf(acts)).lines|
    decreases |acts|
  {
    if acts != [] {
      var (init, last) := (acts[..|acts| - 1], acts[|acts| - 1]);
      ReadsHaveLines(init);
      if last.Key? { FinishedLinesStay(KeysOf(init), [last.ch]); }
    }
  }

  /** One more act. */
  lemma Snoc(init: seq<Act>, a: Act, size: nat)
    ensures KeysOf(init + [a]) == KeysOf(init) + (if a.Key? then [a.ch] else [])
    ensures CountsOf(init + [a]) == CountsOf(init) + (if a.Read? then [a.count] else [])
    ensures Legal(init + [a]) <==> Legal(init) && (a.Read? ==> |CountsOf(init)| < |Typed(KeysOf(init)).lines|)
    ensures Legal(init) ==> |CountsOf(init)| <= |Typed(KeysOf(init)).lines|
    ensures Legal(init + [a]) ==>
      (NeverFull(init + [a], size) <==> NeverFull(init, size) && (a.Key? ==> Load(init) + Grows(a.ch) < size))
  {
    hide Typed, Load, Grows;
    assert (init + [a])[..|init|] == init;
    if Legal(init) { ReadsHaveLines(init); }
  }

  /** Every prefix of a session is one, and fits if the whole does. */
  lemma {:induction false} Prefix(acts: seq<Act>, i: nat, size: nat)
    requires i <= |acts| && Legal(acts)
    ensures Legal(acts[..i]) && (NeverFull(acts, size) ==> NeverFull(acts[..i], size))
    decreases |acts| - i
  {
    hide Legal, NeverFull, KeysOf, CountsOf, Typed, Load;
    if i < |acts| {
      Prefix(acts, i + 1, size);
      assert acts[..i + 1] == acts[..i] + [acts[i]];
      Snoc(acts[..i], acts[i], size);
    } else {
      assert acts[..i] == acts;
    }
  }

  /** How one more key changes that. */
  lemma RingAfter(keys: seq<char>, taken: nat, ch: char)
    requires taken <= |Typed(keys).lines| && '\0' !in keys && ch != '\0'
    ensures taken <= |Typed(keys + [ch]).lines| && '\0' !in keys + [ch]
    ensures |Typed(keys + [ch]).lines| == |Typed(keys).lines| + if ch == '\n' then 1 else 0
    ensures var (c, c') := (RingFor(keys, taken), RingFor(keys + [ch], taken));
            if ch == '\n' then c' == c + [ch] + ['\0']
            else if ch == BACKSPACE then
              && (c != "" && c[|c| - 1] != '\0' <==> Typed(keys).cur != "")
              && c' == (if Typed(keys).cur != "" then c[..|c| - 1] else c)
            else c' == c + [ch]
  {
    hide Typed, Flat;
    var (t, wait) := (Typed(keys), Typed(keys).lines[taken..]);
    TypedStep(keys, ch);
    TypedPlain(keys);
    if ch == '\n' {
      FlatLast(wait, t.cur);
      assert Edited(t, ch).lines[taken..] == wait + [t.cur];
      assert Flat(wait) + t.cur + "\n\0" == Flat(wait) + t.cur + ['\n'] + ['\0'];
    } else if ch == BACKSPACE {
      FlatEnds(wait);
      BackOne(Flat(wait), t.cur);
      assert t.cur != "" ==> t.cur[|t.cur| - 1] in t.cur;
    } else {
      assert Flat(wait) + t.cur + [ch] == Flat(wait) + (t.cur + [ch]);
    }
  }

  /** What a read finds first, and what it leaves. */
  lemma RingHead(keys: seq<char>, taken: nat)
    requires taken < |Typed(keys).lines| && '\0' !in keys
    ensures var (c, line) := (RingFor(keys, taken), Typed(keys).lines[taken]);
            && '\0' in c && UpToNul(c) == line + "\n" && c[|line| + 2..] == RingFor(keys, taken + 1)
  {
    hide Typed, Flat, UpToNul;
    var (t, wait) := (Typed(keys), Typed(keys).lines[taken..]);
    var rest := Flat(wait[1..]) + t.cur;
    TypedPlain(keys);
    FlatFirst(wait);
    HeadLine(wait[0], rest);
    assert t.lines[taken + 1..] == wait[1..];
    assert (wait[0] + "\n\0" + Flat(wait[1..])) + t.cur == (wait[0] + "\n\0") + rest;
  }

  // ----- the device

  /** The bytes of a ring from front up to rear. */
  function Ring(b: string, front: nat, rear: nat): string
    requires front < |b| && rear < |b|
  {
    if front <= rear then b[front..rear] else b[front..] + b[..rear]
  }

  function Prev(i: nat, size: nat): (p: nat)
    requires i < size
    ensures p < size
  {
    if i == 0 then size - 1 else i - 1
  }

  function After(i: nat, size: nat): (n: nat)
    requires i < size
    ensures n < size
  {
    if i + 1 == size then 0 else i + 1
  }

  lemma PushRing(b: string, front: nat, rear: nat, ch: char)
    requires 2 <= |b| && front < |b| && rear < |b|
    ensures var next := After(rear, |b|);
            && (next == front <==> |Ring(b, front, rear)| == |b| - 1)
            && (next != front ==> Ring(b[rear := ch][next := '\0'], front, next) == Ring(b, front, rear) + [ch])
            && (next != front && b[Prev(front, |b|)] == '\0' ==> b[rear := ch][next := '\0'][Prev(front, |b|)] == '\0')
    ensures |Ring(b, front, rear)| < |b|
  {
    var next := After(rear, |b|);
    if next != front {
      var c := b[rear := ch][next := '\0'];
      if front <= rear && next == 0 {
        assert c[front..] == b[front..rear] + [ch] && c[..0] == "";
      } else if front <= rear {
        assert c[front..next] == b[front..rear] + [ch];
      } else {
        assert c[front..] == b[front..] && c[..next] == b[..rear] + [ch];
      }
    }
  }

  lemma PopRing(b: string, front: nat, rear: nat)
    requires 2 <= |b| && front < |b| && rear < |b| && b[Prev(front, |b|)] == '\0'
    ensures var (last, c) := (Prev(rear, |b|), Ring(b, front, rear));
            && (b[last] != '\0' <==> c != "" && c[|c| - 1] != '\0')
            && (b[last] != '\0' ==> Ring(b[last := '\0'], front, last) == c[..|c| - 1])
            && b[last := '\0'][Prev(front, |b|)] == '\0'
  {
    var (last, c) := (Prev(rear, |b|), Ring(b, front, rear));
    if front == rear {
      assert c == "";
    } else if rear == 0 {
      assert c == b[front..] && c[|c| - 1] == b[last];
      assert b[last := '\0'][front..last] == c[..|c| - 1];
    } else if front < rear {
      assert c[|c| - 1] == b[last];
      assert b[last := '\0'][front..last] == c[..|c| - 1];
    } else {
      assert c[|c| - 1] == b[last];
      assert b[last := '\0'][front..] == b[front..] && b[last := '\0'][..last] == b[..rear][..rear - 1];
    }
  }

  lemma NextRing(b: string, front: nat, rear: nat)
    requires 2 <= |b| && front < |b| && rear < |b| && Ring(b, front, rear) != ""
    ensures Ring(b, front, rear)[0] == b[front] && Ring(b, After(front, |b|), rear) == Ring(b, front, rear)[1..]
    ensures Prev(After(front, |b|), |b|) == front
  {
    var next := After(front, |b|);
    if front < rear {
      assert b[next..rear] == b[front..rear][1..];
    } else if next == 0 {
      assert b[front..] == [b[front]] && b[0..rear] == b[..rear];
    } else {
      assert b[next..] == b[front..][1..];
    }
  }

  class TtyDevice {
    const buf: array<char>
    var front: nat
    var rear: nat
    /** The semaphore of complete lines, and the readers past its wait. */
    var cooked: nat
    var claimed: nat
    /** Every key since the device was opened, and how many lines were read. */
    ghost var keys: seq<char>
    ghost var taken: nat

    predicate Indices()
      reads this`front, this`rear
    {
      buf.Length >= 2 && front < buf.Length && rear < buf.Length
    }

    /** What is in the ring, oldest first. */
    function Content(): string
      requires Indices()
      reads this`front, this`rear, buf
    {
      Ring(buf[..], front, rear)
    }

    /** The byte before the ring's content is NUL, which is what stops backspace. */
    predicate RingOk()
      reads this`front, this`rear, buf
    {
      Indices() && buf[Prev(front, buf.Length)] == '\0'
    }

    lemma ContentFits()
      requires Indices()
      ensures |Content()| < buf.Length
    {
    }

    /** tty_enqueue; ok is false where it panics. */
    method Enqueue(ch: char) returns (ok: bool)
      requires RingOk()
      modifies this`rear, buf
      ensures Indices() && (ok <==> |old(Content())| < buf.Length - 1)
      ensures ok ==> RingOk() && Content() == old(Content()) + [ch]
    {
      hide Ring;
      PushRing(buf[..], front, rear, ch);
      buf[rear] := ch;
      rear := rear + 1;
      if rear == buf.Length { rear := 0; }
      if rear == front { return false; }
      buf[rear] := '\0';
      ok := true;
    }

    /** tty_pop_back: takes back the last byte unless it is NUL. */
    method PopBack() returns (ret: int)
      requires RingOk()
      modifies this`rear, buf
      ensures RingOk()
      ensures var c := old(Content());
              if c != "" && c[|c| - 1] != '\0' then ret == 0 && Content() == c[..|c| - 1]
              else ret == 1 && Content() == c
    {
      hide Ring;
      PopRing(buf[..], front, rear);
      var pos := if rear == 0 then buf.Length else rear;
      if buf[pos - 1] != '\0' {
        rear := pos - 1;
        buf[rear] := '\0';
        return 0;
      }
      ret := 1;
    }

    /** One byte off the front. */
    method Next() returns (ch: char)
      requires Indices() && Content() != ""
      modifies this`front
      ensures Indices() && ch == old(Content())[0] == buf[Prev(front, buf.Length)] && Content() == old(Content())[1..]
    {
      hide Ring;
      NextRing(buf[..], front, rear);
      ch := buf[front];
      front := front + 1;
      if front == buf.Length { front := 0; }
    }

    /** The loop of tty_read: takes one NUL-ended line off the ring, keeps at most count
        bytes of it. */
    method Dequeue(count: int) returns (out: string)
      requires RingOk() && '\0' in Content()
      modifies this`front
      ensures RingOk() && out == Cut(UpToNul(old(Content())), count)
      ensures Content() == old(Content())[|UpToNul(old(Content()))| + 1..]
    {
      hide Content, UpToNul, Cut;
      ghost var was := Content();
      NothingYet(was, count);
      ghost var line := UpToNul(was);
      ghost var k := 0;
      out := "";
      while true
        invariant 0 <= k <= |line| && Indices() && Content() == was[k..]
        invariant out == Cut(line[..k], count)
        decreases |line| - k
      {
        NextOfLine(was, k, count);
        var ch := Next();
        if |out| < count && ch != '\0' {
          out := out + [ch];
        }
        if ch == '\0' { break; }
        k := k + 1;
      }
      assert line[..k] == line;
    }

    /** The ring holds exactly the finished lines not yet read and the line being typed,
        and every one of those lines is counted, by the semaphore or by a reader. */
    ghost predicate Valid()
      reads this, buf
    {
      && RingOk() && '\0' !in keys && taken <= |Typed(keys).lines|
      && Content() == RingFor(keys, taken)
      && cooked + claimed == |Typed(keys).lines| - taken
    }

    /** The session's load is what the ring holds. */
    lemma LoadIs(acts: seq<Act>)
      requires Valid() && keys == KeysOf(acts) && taken == |CountsOf(acts)|
      ensures Load(acts) == |Content()|
    {
    }

    lemma LineWaiting()
      requires Valid() && claimed == 0 && taken < |Typed(keys).lines|
      ensures cooked > 0
    {
    }

    /** tty_init's queue, from a zeroed buffer. */
    constructor (size: nat)
      requires size >= 2
      ensures Valid() && keys == [] && taken == 0 && buf.Length == size && claimed == 0 && fresh(buf)
    {
      buf := new char[size](_ => '\0');
      front, rear, cooked, claimed := 0, 0, 0, 0;
      keys, taken := [], 0;
    }

    /** tty_cook for any key but NUL, which the tty task filters out. ok is false where
        the ring is full; ret is 1 when a backspace found nothing to take back. */
    method Cook(ch: char) returns (ret: int, ok: bool)
      requires Valid() && ch != '\0'
      modifies this`rear, this`cooked, this`keys, buf
      ensures ok <==> |old(Content())| + Grows(ch) < buf.Length
      ensures ok ==> Valid() && keys == old(keys) + [ch]
      ensures ok ==> ret == if ch == BACKSPACE && old(Typed(keys).cur) == "" then 1 else 0
    {
      hide Content, RingFor, Typed, Edited;
      RingAfter(keys, taken, ch);
      ContentFits();
      ret, ok := 0, true;
      if ch == '\n' {
        ok := Enqueue(ch);
        if !ok { return; }
        ok := Enqueue('\0');
        if !ok { return; }
        cooked := cooked + 1;
      } else if ch == BACKSPACE {
        ret := PopBack();
      } else {
        ok := Enqueue(ch);
        if !ok { return; }
      }
      keys := keys + [ch];
    }

    /** The wait on cooked at the head of tty_read, which blocks until a line is counted. */
    method ReadWait()
      requires Valid() && cooked > 0
      modifies this`cooked, this`claimed
      ensures Valid() && cooked == old(cooked) - 1 && claimed == old(claimed) + 1
    {
      cooked, claimed := cooked - 1, claimed + 1;
    }

    /** The rest of tty_read: the oldest line not yet read, with its newline, cut to count. */
    method ReadLine(count: int) returns (out: string)
      requires Valid() && claimed > 0
      modifies this`front, this`claimed, this`taken
      ensures Valid() && claimed == old(claimed) - 1 && taken == old(taken) + 1
      ensures old(taken) < |Typed(keys).lines| && out == Cut(Typed(keys).lines[old(taken)] + "\n", count)
    {
      hide Content, RingFor, Typed, UpToNul;
      RingHead(keys, taken);
      out := Dequeue(count);
      taken := taken + 1;
      claimed := claimed - 1;
    }
  }

  lemma {:induction false} TypedPlain(keys: seq<char>)
    requires '\0' !in keys
    ensures PlainText(Typed(keys))
    decreases |keys|
  {
    if keys != [] {
      TypedPlain(keys[..|keys| - 1]);
    }
  }

  /** Taking the last byte of the ring back touches the current line only. */
  lemma BackOne(done: string, cur: string)
    ensures cur != "" ==> (done + cur)[|done + cur| - 1] == cur[|cur| - 1]
    ensures cur != "" ==> (done + cur)[..|done + cur| - 1] == done + cur[..|cur| - 1]
    ensures cur == "" ==> done + cur == done
  {
  }

  /** The first line of the ring is what a read finds before the first NUL. */
  lemma HeadLine(line: string, rest: string)
    requires Plain(line)
    ensures UpToNul((line + "\n") + ['\0'] + rest) == line + "\n"
    ensures ((line + "\n") + ['\0'] + rest)[|line| + 2..] == rest
    ensures (line + "\n\0") + rest == (line + "\n") + ['\0'] + rest
    ensures '\0' in (line + "\n") + ['\0'] + rest
  {
    UpToNulIs(line + "\n", rest);
    assert ((line + "\n") + ['\0'] + rest)[|line| + 1] == '\0';
  }

  /** The device driven by any session: it succeeds exactly when no key overfills the
      ring, and then the k-th read has returned the k-th line of all that was typed, after
      its backspaces and with its newline, cut to the reader's count. */
  method Session(size: nat, acts: seq<Act>) returns (outs: seq<string>, ok: bool)
    requires size >= 2 && Legal(acts) && forall i :: 0 <= i < |acts| ==> acts[i] != Key('\0')
    ensures ok <==> NeverFull(acts, size)
    ensures ok ==> |outs| == |CountsOf(acts)| <= |Typed(KeysOf(acts)).lines|
    ensures ok ==> forall k :: 0 <= k < |outs| ==>
      outs[k] == Cut(Typed(KeysOf(acts)).lines[k] + "\n", CountsOf(acts)[k])
  {
    hide Typed, KeysOf, CountsOf, Legal, RingFor, Cut, Grows, NeverFull, Load, TtyDevice.Valid, TtyDevice.Content;
    var tty := new TtyDevice(size);
    outs := [];
    EmptySession(size);
    assert acts[..0] == [];
    for i := 0 to |acts|
      invariant fresh(tty) && fresh(tty.buf) && tty.buf.Length == size && tty.Valid() && tty.claimed == 0
      invariant Legal(acts[..i]) && NeverFull(acts[..i], size)
      invariant tty.keys == KeysOf(acts[..i]) && tty.taken == |CountsOf(acts[..i])| == |outs|
      invariant |outs| <= |Typed(KeysOf(acts[..i])).lines|
      invariant forall k :: 0 <= k < |outs| ==> outs[k] == Cut(Typed(KeysOf(acts[..i])).lines[k] + "\n", CountsOf(acts[..i])[k])
    {
      Prefix(acts, i + 1, size);
      Snoc(acts[..i], acts[i], size);
      assert acts[..i + 1] == acts[..i] + [acts[i]];
      match acts[i]
      case Key(ch) =>
        FinishedLinesStay(KeysOf(acts[..i]), [ch]);
        tty.LoadIs(acts[..i]);
        var ret;
        ret, ok := tty.Cook(ch);
        if !ok { return; }
      case Read(count) =>
        tty.LineWaiting();
        tty.ReadWait();
        var out := tty.ReadLine(count);
        outs := outs + [out];
    }
    assert acts[..|acts|] == acts;
    ok := true;
  }

  lemma EmptySession(size: nat)
    ensures Legal([]) && NeverFull([], size) && KeysOf([]) == [] && CountsOf([]) == []
  {
  }
}
