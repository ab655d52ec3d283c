/** The log console of the GUI (internal/gui/console.go): a writer that the
    logger writes to, and the bounded buffer of messages it shows.

    Messages are byte strings (Go's `string(p)` keeps the bytes as they
    are).  The scheduling of the update on the GUI thread (`fyne.Do`) is not
    modelled: each append is one atomic step. */
module Console {
  import opened Base

  const Newline: byte := 10

  /** How many messages the console keeps. */
  const MaxMessages: nat := 100

  /** The console widget's state: the retained messages, the text shown, and
      the cursor. */
  datatype Console = Console(messages: seq<seq<byte>>, text: seq<byte>, cursorRow: int, cursorColumn: int)

  /** The text shown for a list of messages: each followed by a newline. */
  function Lines(ms: seq<seq<byte>>): seq<byte> {
    if ms == [] then [] else Lines(ms[..|ms| - 1]) + ms[|ms| - 1] + [Newline]
  }

  lemma {:induction false} LinesAppend(a: seq<seq<byte>>, b: seq<seq<byte>>)
    ensures Lines(a + b) == Lines(a) + Lines(b)
    decreases |b|
  {
    if b != [] {
      var b' := b[..|b| - 1];
      assert (a + b)[..|a + b| - 1] == a + b';
      assert (a + b)[|a + b| - 1] == b[|b| - 1];
      LinesAppend(a, b');
      assert Lines(a + b) == Lines(a + b') + b[|b| - 1] + [Newline];
      assert Lines(b) == Lines(b') + b[|b| - 1] + [Newline];
    } else {
      assert a + b == a;
    }
  }

  /** The text has one newline terminator per message: its length is the
      messages' lengths plus one each. */
  lemma {:induction false} LinesLength(ms: seq<seq<byte>>)
    ensures |Lines(ms)| == |ms| + TotalLength(ms)
  {
    if ms != [] {
      LinesLength(ms[..|ms| - 1]);
    }
  }

  function TotalLength(ms: seq<seq<byte>>): nat {
    if ms == [] then 0 else TotalLength(ms[..|ms| - 1]) + |ms[|ms| - 1]|
  }

  /** The console's invariant: at most 100 messages, the text is exactly
      their lines, and once there is a message the cursor is at the start of
      the last row. */
  ghost predicate Valid(c: Console) {
    && |c.messages| <= MaxMessages
    && c.text == Lines(c.messages)
    && (c.messages != [] ==> c.cursorRow == |c.messages| - 1 && c.cursorColumn == 0)
  }

  /** The console before anything was written. */
  function Empty(): (c: Console)
    ensures Valid(c) && c.messages == [] && c.text == []
  {
    Console([], [], 0, 0)
  }

  /** The newline trim of `Write`: exactly one trailing '\n' is removed when
      there is one; nothing else changes, so a "\r\n" ending keeps its '\r'.
      Putting the newline back gives the input again. */
  function TrimNewline(p: seq<byte>): (m: seq<byte>)
    ensures p != [] && p[|p| - 1] == Newline ==> m + [Newline] == p
    ensures !(p != [] && p[|p| - 1] == Newline) ==> m == p
  {
    if |p| > 0 && p[|p| - 1] == Newline then p[..|p| - 1] else p
  }

  /** A message written with its newline comes back as it was; only one
      newline is removed. */
  lemma TrimNewlineRoundTrip(m: seq<byte>)
    ensures TrimNewline(m + [Newline]) == m
    ensures TrimNewline(m + [Newline, Newline]) == m + [Newline]
    ensures TrimNewline(m + [13, Newline]) == m + [13]
  {
    assert (m + [Newline, Newline])[..|m| + 1] == m + [Newline];
    assert (m + [13, Newline])[..|m| + 1] == m + [13];
  }

  /** `appendConsoleMessage`: the message goes at the end; when that makes
      more than 100, the oldest is dropped.  The retained messages are the
      newest ones in their order, the text is rebuilt from them, and the
      cursor moves to the last row. */
  function Append(c: Console, msg: seq<byte>): (d: Console)
    requires Valid(c)
    ensures Valid(d)
    ensures d.messages != [] && d.messages[|d.messages| - 1] == msg
    ensures |d.messages| == if |c.messages| < MaxMessages then |c.messages| + 1 else MaxMessages
    ensures d.messages == (c.messages + [msg])[|c.messages| + 1 - |d.messages|..]
    ensures d.messages == Newest(c.messages + [msg])
    ensures |c.messages| < MaxMessages ==> d.text == c.text + msg + [Newline]
  {
    var ms := c.messages + [msg];
    var ms := if |ms| > MaxMessages then ms[1..] else ms;
    assert (c.messages + [msg])[..|c.messages|] == c.messages;
    Console(ms, Lines(ms), |ms| - 1, 0)
  }

  /** `Write`: trim the newline, append, and report the whole input as
      written, with no error, whatever was trimmed. */
  function Write(c: Console, p: seq<byte>): (r: (Console, nat, Outcome))
    requires Valid(c)
    ensures Valid(r.0)
    ensures r.0 == Append(c, TrimNewline(p))
    ensures r.1 == |p| && r.2 == Pass
  {
    (Append(c, TrimNewline(p)), |p|, Pass)
  }

  /** Nothing written is lost but the one trimmed newline: the newest
      message, with that newline put back, is the input. */
  lemma WriteKeepsInput(c: Console, p: seq<byte>)
    requires Valid(c)
    ensures var d := Write(c, p).0;
            d.messages != [] &&
            d.messages[|d.messages| - 1] + (if p != [] && p[|p| - 1] == Newline then [Newline] else []) == p
  {
    var m := TrimNewline(p);
    if p != [] && p[|p| - 1] == Newline {
      assert m + [Newline] == p;
    } else {
      assert m + [] == p;
    }
  }

  /** Appending messages one by one. */
  function AppendAll(c: Console, msgs: seq<seq<byte>>): (d: Console)
    requires Valid(c)
    ensures Valid(d)
    decreases |msgs|
  {
    if msgs == [] then c else AppendAll(Append(c, msgs[0]), msgs[1..])
  }

  lemma SplitFirst<T>(xs: seq<T>, ys: seq<T>)
    requires ys != []
    ensures xs + [ys[0]] + ys[1..] == xs + ys
  {
    assert ys == [ys[0]] + ys[1..];
  }

  /** The newest (at most) 100 of a list of messages. */
  function Newest(all: seq<seq<byte>>): (r: seq<seq<byte>>)
    ensures |r| <= MaxMessages && IsSuffixOf(r, all)
    ensures |all| <= MaxMessages ==> r == all
    ensures |all| > MaxMessages ==> |r| == MaxMessages
  {
    if |all| <= MaxMessages then all else all[|all| - MaxMessages..]
  }

  ghost predicate IsSuffixOf<T>(r: seq<T>, s: seq<T>) {
    |r| <= |s| && s[|s| - |r|..] == r
  }

  /** Keeping the newest 100 after each message is keeping the newest 100
      at the end. */
  lemma NewestAppend(xs: seq<seq<byte>>, m: seq<byte>, rest: seq<seq<byte>>)
    requires |xs| <= MaxMessages
    ensures Newest(Newest(xs + [m]) + rest) == Newest(xs + [m] + rest)
  {
    var all := xs + [m] + rest;
    if |xs| == MaxMessages {
      assert Newest(xs + [m]) + rest == all[1..];
    } else {
      assert Newest(xs + [m]) + rest == all;
    }
  }

  /** However many messages are written, the console shows the newest (at
      most) 100 of everything written, in order. */
  lemma {:induction false} KeepsNewest(c: Console, msgs: seq<seq<byte>>)
    requires Valid(c)
    ensures AppendAll(c, msgs).messages == Newest(c.messages + msgs)
    decreases |msgs|
  {
    if msgs != [] {
      var c' := Append(c, msgs[0]);
      KeepsNewest(c', msgs[1..]);
      NewestAppend(c.messages, msgs[0], msgs[1..]);
      SplitFirst(c.messages, msgs);
    } else {
      assert c.messages + msgs == c.messages;
    }
  }
}
