/**
  Direct-message delivery of pkg/handler/poller.go: `sendMessage` sends a
  text in one message when it fits Discord's 2000-byte limit and otherwise
  hands it to `sendSplitMessage`, which cuts the text at line boundaries into
  chunks. A chunk that ends inside a code block (an odd number of "```"
  fences so far) is closed with "\n```" and the next chunk reopens it with
  "```".

  The messages are returned in the order they are sent; the Discord calls
  and their errors are not part of this model.
*/
module PollSplit {
  import opened Text

  /** Discord's message size limit, in bytes. */
  const MaxMessageBytes: nat := 2000

  /** strings.Count(s, "```"): non-overlapping fences, leftmost first. */
  function Fences(s: string): nat
    decreases |s|
  {
    if |s| < 3 then 0
    else if s[0] == '`' && s[1] == '`' && s[2] == '`' then 1 + Fences(s[3..])
    else Fences(s[1..])
  }

  /** A newline never takes part in a fence, so counts add up across one. */
  lemma {:induction false} FencesJoin(a: string, b: string)
    ensures Fences(a + "\n" + b) == Fences(a) + Fences(b)
    decreases |a|
  {
    var s := a + "\n" + b;
    if a == [] {
      assert s == "\n" + b;
      assert s[0] == '\n' && s[1..] == b;
    } else if |a| >= 3 && a[0] == '`' && a[1] == '`' && a[2] == '`' {
      assert s[0] == a[0] && s[1] == a[1] && s[2] == a[2];
      assert s[3..] == a[3..] + "\n" + b;
      FencesJoin(a[3..], b);
    } else {
      if |s| >= 3 {
        if |a| < 3 {
          assert s[|a|] == '\n';
        } else {
          assert s[0] == a[0] && s[1] == a[1] && s[2] == a[2];
        }
      }
      assert s[1..] == a[1..] + "\n" + b;
      FencesJoin(a[1..], b);
    }
  }

  /**
    What the buffer holds after writing `lines` onto `start`: a line is
    preceded by a newline unless the buffer is still empty.
  */
  function Glue(start: string, lines: seq<string>): string
  {
    if lines == [] then start
    else
      var s := Glue(start, lines[..|lines| - 1]);
      if s != [] then s + "\n" + lines[|lines| - 1] else lines[|lines| - 1]
  }

  /** One sent message: whether it reopens a code block, the source lines it carries, whether it closes one. */
  datatype Chunk = Chunk(reopened: bool, lines: seq<string>, closed: bool)

  function Opener(reopened: bool): string
  {
    if reopened then "```" else ""
  }

  function Closer(closed: bool): string
  {
    if closed then "\n```" else ""
  }

  function Render(c: Chunk): string
  {
    Glue(Opener(c.reopened), c.lines) + Closer(c.closed)
  }

  /** All lines of the chunks, in order. */
  function Flatten(chunks: seq<Chunk>): seq<string>
  {
    if chunks == [] then [] else Flatten(chunks[..|chunks| - 1]) + chunks[|chunks| - 1].lines
  }

  /** Whether a code block is open after `line`: every fence in it toggles the state. */
  function AfterLine(inCode: bool, line: string): bool
  {
    if Fences(line) % 2 == 1 then !inCode else inCode
  }

  /**
    Which block state the cut condition of lines 865-872 reserves the closing
    fence by: the code (`AsWritten`) reserves it when a block is open before
    the line; the `Intended` rule reserves it when one is open after the line,
    which is when the message will need the fence.
  */
  datatype Rule = AsWritten | Intended

  /** Whether the cut condition counts the 4 bytes of a closing fence for `line`. */
  function Reserves(rule: Rule, inCode: bool, line: string): bool
  {
    match rule
    case AsWritten => inCode
    case Intended => AfterLine(inCode, line)
  }

  /** Line 872: the buffer, a newline, the line and the reserved fence would pass the limit. */
  predicate Overflows(rule: Rule, buffer: string, line: string, inCode: bool)
  {
    ByteLen(buffer) + ByteLen(line) + 1 + (if Reserves(rule, inCode, line) then 4 else 0) > MaxMessageBytes
  }

  /** Writing one more line onto the buffer. */
  lemma GlueSnoc(start: string, lines: seq<string>, line: string)
    ensures Glue(start, lines + [line]) ==
      if Glue(start, lines) != [] then Glue(start, lines) + "\n" + line else line
  {
    assert (lines + [line])[..|lines|] == lines;
  }

  lemma GlueFences(start: string, lines: seq<string>, line: string)
    ensures Fences(Glue(start, lines + [line])) == Fences(Glue(start, lines)) + Fences(line)
  {
    GlueSnoc(start, lines, line);
    if Glue(start, lines) != [] {
      FencesJoin(Glue(start, lines), line);
    }
  }

  /** An empty buffer means no reopened fence and only empty lines written. */
  lemma {:induction false} GlueEmpty(start: string, lines: seq<string>)
    requires Glue(start, lines) == ""
    ensures start == "" && forall k :: 0 <= k < |lines| ==> lines[k] == ""
  {
    if lines != [] {
      var s := Glue(start, lines[..|lines| - 1]);
      assert s == [];
      GlueEmpty(start, lines[..|lines| - 1]);
      assert forall k :: 0 <= k < |lines| - 1 ==> lines[k] == lines[..|lines| - 1][k];
    }
  }

  lemma FlattenAppend(chunks: seq<Chunk>, c: Chunk)
    ensures Flatten(chunks + [c]) == Flatten(chunks) + c.lines
  {
    assert (chunks + [c])[..|chunks|] == chunks;
  }

  /** The buffer part of a message: everything before the closing fence. */
  function Body(c: Chunk): string
  {
    Glue(Opener(c.reopened), c.lines)
  }

  /** The message is the rendering of its chunk, is not empty, and has its code blocks balanced. */
  predicate Carries(msg: string, c: Chunk)
  {
    msg == Render(c) && msg != "" && Fences(msg) % 2 == 0
  }

  predicate Delivered(sent: seq<string>, chunks: seq<Chunk>)
  {
    && |sent| == |chunks|
    && forall k {:trigger Carries(sent[k], chunks[k])} :: 0 <= k < |sent| ==> Carries(sent[k], chunks[k])
  }

  /** A message closes a code block exactly when its buffer leaves one open. */
  ghost predicate ClosesOpen(c: Chunk)
  {
    c.closed <==> Fences(Body(c)) % 2 == 1
  }

  /** Message `k` reopens a code block exactly when message `k - 1` closed one; the first reopens none. */
  ghost predicate ReopensAfter(chunks: seq<Chunk>, k: nat)
    requires k < |chunks|
  {
    chunks[k].reopened == (k > 0 && chunks[k - 1].closed)
  }

  /**
    Every message reopens a block exactly when the previous one closed, and
    closes one exactly when its buffer leaves a block open.
  */
  ghost predicate Linked(chunks: seq<Chunk>)
  {
    && (forall k {:trigger ReopensAfter(chunks, k)} :: 0 <= k < |chunks| ==> ReopensAfter(chunks, k))
    && (forall k {:trigger ClosesOpen(chunks[k])} :: 0 <= k < |chunks| ==> ClosesOpen(chunks[k]))
  }

  /** Message `k - 1` was cut because the first line of message `k` would not have fitted. */
  ghost predicate CutBefore(rule: Rule, chunks: seq<Chunk>, k: nat)
    requires 1 <= k < |chunks|
  {
    chunks[k].lines != [] && Overflows(rule, Body(chunks[k - 1]), chunks[k].lines[0], chunks[k - 1].closed)
  }

  /** A message is cut only when the first line of the next one would not have fitted. */
  ghost predicate CutAtOverflow(rule: Rule, chunks: seq<Chunk>)
  {
    forall k {:trigger CutBefore(rule, chunks, k)} :: 1 <= k < |chunks| ==> CutBefore(rule, chunks, k)
  }

  lemma CutAppend(rule: Rule, chunks: seq<Chunk>, c: Chunk)
    requires CutAtOverflow(rule, chunks)
    requires chunks != [] ==>
      c.lines != [] && Overflows(rule, Body(chunks[|chunks| - 1]), c.lines[0], chunks[|chunks| - 1].closed)
    ensures CutAtOverflow(rule, chunks + [c])
  {
    var cs := chunks + [c];
    forall k | 1 <= k < |cs|
      ensures CutBefore(rule, cs, k)
    {
      if k < |chunks| {
        assert CutBefore(rule, chunks, k);
        assert cs[k] == chunks[k] && cs[k - 1] == chunks[k - 1];
      } else {
        assert cs[k] == c && cs[k - 1] == chunks[|chunks| - 1];
      }
    }
  }

  lemma OpenerFences(reopened: bool)
    ensures Fences(Opener(reopened)) == if reopened then 1 else 0
  {
    if reopened {
      assert Opener(reopened)[3..] == "";
    }
  }

  /** Closing a buffer with an open block (odd count) makes its count even. */
  lemma CloseBalances(sb: string, inCode: bool)
    requires Fences(sb) % 2 == (if inCode then 1 else 0)
    ensures Fences(sb + Closer(inCode)) % 2 == 0
  {
    if inCode {
      FencesJoin(sb, "```");
      assert sb + Closer(inCode) == sb + "\n" + "```";
      OpenerFences(true);
    } else {
      assert sb + Closer(inCode) == sb;
    }
  }

  lemma DeliveredAppend(sent: seq<string>, chunks: seq<Chunk>, c: Chunk)
    requires Delivered(sent, chunks)
    requires Render(c) != "" && Fences(Render(c)) % 2 == 0
    ensures Delivered(sent + [Render(c)], chunks + [c])
  {
    var ss, cs := sent + [Render(c)], chunks + [c];
    forall k | 0 <= k < |ss|
      ensures Carries(ss[k], cs[k])
    {
      if k < |sent| {
        assert Carries(sent[k], chunks[k]);
        assert ss[k] == sent[k] && cs[k] == chunks[k];
      }
    }
  }

  lemma LinkedAppend(chunks: seq<Chunk>, c: Chunk)
    requires Linked(chunks)
    requires c.reopened == (chunks != [] && chunks[|chunks| - 1].closed)
    requires c.closed <==> Fences(Body(c)) % 2 == 1
    ensures Linked(chunks + [c])
  {
    var cs := chunks + [c];
    assert forall k :: 0 <= k < |chunks| ==> cs[k] == chunks[k];
    forall k | 0 <= k < |cs|
      ensures ReopensAfter(cs, k) && ClosesOpen(cs[k])
    {
      if k < |chunks| {
        assert ReopensAfter(chunks, k) && ClosesOpen(chunks[k]);
      }
    }
  }

  /**
    The variables of sendSplitMessage (lines 830-831) together with the
    bookkeeping of the model: the messages sent, which source lines each
    carries (`chunks`), the lines written into the buffer since the last
    message (`cur`) and whether the buffer started by reopening a block.
  */
  datatype Splitter = Splitter(sb: string, inCode: bool, sent: seq<string>, chunks: seq<Chunk>,
                               cur: seq<string>, reopened: bool)

  const Start := Splitter("", false, [], [], [], false)

  /**
    sendChunk (lines 834-859): an empty buffer sends nothing; otherwise the
    buffer goes out, closed with a fence while a block is open, and the next
    buffer starts with the reopening fence or empty.
  */
  function Flush(st: Splitter): Splitter
  {
    if st.sb == "" then st
    else Splitter(Opener(st.inCode), st.inCode, st.sent + [st.sb + Closer(st.inCode)],
                  st.chunks + [Chunk(st.reopened, st.cur, st.inCode)], [], st.inCode)
  }

  /** Lines 865-877: the buffer is sent first when the line would not fit. */
  function Cut(rule: Rule, st: Splitter, line: string): Splitter
  {
    if Overflows(rule, st.sb, line, st.inCode) then Flush(st) else st
  }

  /** Lines 881-890: the line goes in after a newline (none into an empty buffer); every fence in it toggles the block state. */
  function Write(st: Splitter, line: string): Splitter
  {
    Splitter(if st.sb != "" then st.sb + "\n" + line else line,
             AfterLine(st.inCode, line),
             st.sent, st.chunks, st.cur + [line], st.reopened)
  }

  /** One turn of the loop of lines 861-898; after the last line the buffer is sent (lines 893-897). */
  function Feed(rule: Rule, st: Splitter, line: string, last: bool): Splitter
  {
    var written := Write(Cut(rule, st, line), line);
    if last then Flush(written) else written
  }

  /** The state after the first `n` lines. */
  function Run(rule: Rule, lines: seq<string>, n: nat): Splitter
    requires n <= |lines|
    decreases n, 1
  {
    if n == 0 then Start else Step(rule, lines, n)
  }

  /** The state after line `n - 1`, the last one when `n` is the number of lines. */
  function Step(rule: Rule, lines: seq<string>, n: nat): Splitter
    requires 0 < n <= |lines|
    decreases n, 0
  {
    Feed(rule, Run(rule, lines, n - 1), lines[n - 1], n == |lines|)
  }

  /** One more line: the state after `n` lines is the previous state fed line `n - 1`. */
  lemma RunStep(rule: Rule, lines: seq<string>, n: nat)
    requires 0 < n <= |lines|
    ensures Run(rule, lines, n) == Feed(rule, Run(rule, lines, n - 1), lines[n - 1], n == |lines|)
  {
    assert Run(rule, lines, n) == Step(rule, lines, n);
  }

  /** The buffer holds the current lines after the opener, and `inCode` is the parity of its fences. */
  ghost predicate Buffer(sb: string, inCode: bool, cur: seq<string>, reopened: bool)
  {
    && sb == Glue(Opener(reopened), cur)
    && Fences(sb) % 2 == (if inCode then 1 else 0)
  }

  /** The messages sent so far, and whether the buffer starts by reopening a block. */
  ghost predicate Record(sent: seq<string>, chunks: seq<Chunk>, reopened: bool)
  {
    && reopened == (chunks != [] && chunks[|chunks| - 1].closed)
    && Delivered(sent, chunks) && Linked(chunks)
  }

  /** The last message was cut because the first line of the buffer did not fit. */
  predicate Pending(rule: Rule, chunks: seq<Chunk>, cur: seq<string>)
  {
    chunks != [] ==> cur != [] && Overflows(rule, Body(chunks[|chunks| - 1]), cur[0], chunks[|chunks| - 1].closed)
  }

  /** After a message is sent the buffer holds just the reopening fence, if any. */
  lemma FlushBuffer(st: Splitter)
    requires Buffer(st.sb, st.inCode, st.cur, st.reopened)
    ensures var f := Flush(st); Buffer(f.sb, f.inCode, f.cur, f.reopened)
  {
    OpenerFences(st.inCode);
  }

  /** The message sent is the rendering of the buffered lines, balanced, and linked to the one before. */
  lemma FlushRecord(st: Splitter)
    requires Buffer(st.sb, st.inCode, st.cur, st.reopened) && Record(st.sent, st.chunks, st.reopened)
    ensures var f := Flush(st); Record(f.sent, f.chunks, f.reopened)
  {
    if st.sb != "" {
      var c := Chunk(st.reopened, st.cur, st.inCode);
      CloseBalances(st.sb, st.inCode);
      assert Render(c) == st.sb + Closer(st.inCode);
      DeliveredAppend(st.sent, st.chunks, c);
      LinkedAppend(st.chunks, c);
    }
  }

  /** The lines written so far: those of the messages sent, then those in the buffer. */
  function Seen(st: Splitter): seq<string>
  {
    Flatten(st.chunks) + st.cur
  }

  /** Sending the buffer loses no line, and leaves an empty buffer or no buffered line. */
  lemma FlushFlatten(st: Splitter)
    ensures Seen(Flush(st)) == Seen(st)
    ensures Flush(st).sb == "" || Flush(st).cur == []
  {
    if st.sb != "" {
      var c := Chunk(st.reopened, st.cur, st.inCode);
      FlattenAppend(st.chunks, c);
      assert Flatten(st.chunks + [c]) + [] == Flatten(st.chunks + [c]);
    }
  }

  /** A message sent while the first buffered line overflowed the previous one keeps every cut at an overflow. */
  lemma FlushCuts(rule: Rule, st: Splitter)
    requires CutAtOverflow(rule, st.chunks) && Pending(rule, st.chunks, st.cur)
    ensures CutAtOverflow(rule, Flush(st).chunks)
  {
    if st.sb != "" {
      CutAppend(rule, st.chunks, Chunk(st.reopened, st.cur, st.inCode));
    }
  }

  lemma WriteKeeps(st: Splitter, line: string)
    requires Buffer(st.sb, st.inCode, st.cur, st.reopened)
    ensures var w := Write(st, line); Buffer(w.sb, w.inCode, w.cur, w.reopened)
  {
    WriteGlue(st, line);
    WriteParity(st, line);
  }

  lemma WriteGlue(st: Splitter, line: string)
    requires st.sb == Glue(Opener(st.reopened), st.cur)
    ensures var w := Write(st, line); w.sb == Glue(Opener(w.reopened), w.cur)
  {
    GlueSnoc(Opener(st.reopened), st.cur, line);
  }

  lemma WriteParity(st: Splitter, line: string)
    requires Buffer(st.sb, st.inCode, st.cur, st.reopened)
    ensures var w := Write(st, line); Fences(w.sb) % 2 == (if w.inCode then 1 else 0)
  {
    WriteGlue(st, line);
    GlueFences(Opener(st.reopened), st.cur, line);
    Toggles(Fences(st.sb), Fences(line), st.inCode);
  }

  /** Adding `n` fences to a count of parity `inCode` flips the parity when `n` is odd. */
  lemma Toggles(count: nat, n: nat, inCode: bool)
    requires count % 2 == (if inCode then 1 else 0)
    ensures (count + n) % 2 == (if (if n % 2 == 1 then !inCode else inCode) then 1 else 0)
  {
  }

  lemma WriteBytes(st: Splitter, line: string)
    ensures ByteLen(Write(st, line).sb) == if st.sb != "" then ByteLen(st.sb) + 1 + ByteLen(line) else ByteLen(line)
  {
    if st.sb != "" {
      ByteLenAppend(st.sb + "\n", line);
      ByteLenAppend(st.sb, "\n");
      FenceBytes();
    }
  }

  /** After cutting and writing, the first buffered line is the one that overflowed the last message. */
  lemma CutPending(rule: Rule, st: Splitter, line: string)
    requires Buffer(st.sb, st.inCode, st.cur, st.reopened) && Pending(rule, st.chunks, st.cur)
    ensures var w := Write(Cut(rule, st, line), line); Pending(rule, w.chunks, w.cur)
  {
    var cut := Cut(rule, st, line);
    if cut.chunks != st.chunks {
      assert (cut.cur + [line])[0] == line;
    } else if st.cur != [] {
      assert (st.cur + [line])[0] == st.cur[0];
    }
  }

  /** Every line goes through the buffer into the messages, in order. */
  lemma WriteFlatten(st: Splitter, line: string)
    ensures Seen(Write(st, line)) == Seen(st) + [line]
  {
    assert Flatten(st.chunks) + (st.cur + [line]) == Flatten(st.chunks) + st.cur + [line];
  }

  lemma StepFlatten(rule: Rule, lines: seq<string>, n: nat)
    requires 0 < n <= |lines|
    ensures var r := Run(rule, lines, n);
      && Seen(r) == Seen(Run(rule, lines, n - 1)) + [lines[n - 1]]
      && (n == |lines| ==> r.cur == [] || r.sb == "")
  {
    var st, line := Run(rule, lines, n - 1), lines[n - 1];
    RunStep(rule, lines, n);
    var cut := Cut(rule, st, line);
    FlushFlatten(st);
    assert Seen(cut) == Seen(st);
    WriteFlatten(cut, line);
    FlushFlatten(Write(cut, line));
  }

  /** The buffer holds the lines after the `n`-th that are not yet sent, and its fences give the block state. */
  ghost predicate BufferAt(rule: Rule, lines: seq<string>, n: nat)
    requires n <= |lines|
  {
    var r := Run(rule, lines, n); Buffer(r.sb, r.inCode, r.cur, r.reopened)
  }

  /** The messages sent after `n` lines are rendered, balanced and linked. */
  ghost predicate RecordAt(rule: Rule, lines: seq<string>, n: nat)
    requires n <= |lines|
  {
    var r := Run(rule, lines, n); Record(r.sent, r.chunks, r.reopened)
  }

  /** Every message sent after `n` lines was cut at an overflow, and so was the last one while lines remain. */
  ghost predicate CutsAt(rule: Rule, lines: seq<string>, n: nat)
    requires n <= |lines|
  {
    var r := Run(rule, lines, n); CutAtOverflow(rule, r.chunks) && (n < |lines| ==> Pending(rule, r.chunks, r.cur))
  }

  lemma StepBuffer(rule: Rule, lines: seq<string>, n: nat)
    requires 0 < n <= |lines| && BufferAt(rule, lines, n - 1)
    ensures BufferAt(rule, lines, n)
  {
    var st, line := Run(rule, lines, n - 1), lines[n - 1];
    RunStep(rule, lines, n);
    var cut := Cut(rule, st, line);
    FlushBuffer(st);
    WriteKeeps(cut, line);
    FlushBuffer(Write(cut, line));
  }

  lemma StepRecord(rule: Rule, lines: seq<string>, n: nat)
    requires 0 < n <= |lines| && BufferAt(rule, lines, n - 1) && RecordAt(rule, lines, n - 1)
    ensures RecordAt(rule, lines, n)
  {
    var st, line := Run(rule, lines, n - 1), lines[n - 1];
    RunStep(rule, lines, n);
    var cut := Cut(rule, st, line);
    FlushBuffer(st);
    FlushRecord(st);
    WriteKeeps(cut, line);
    FlushRecord(Write(cut, line));
  }

  lemma StepCuts(rule: Rule, lines: seq<string>, n: nat)
    requires 0 < n <= |lines| && BufferAt(rule, lines, n - 1) && CutsAt(rule, lines, n - 1)
    ensures CutsAt(rule, lines, n)
  {
    var st, line := Run(rule, lines, n - 1), lines[n - 1];
    RunStep(rule, lines, n);
    FlushCuts(rule, st);
    CutPending(rule, st, line);
    FlushCuts(rule, Write(Cut(rule, st, line), line));
  }

  /** After every prefix of the lines the buffer holds the lines not yet sent, and its fences give the block state. */
  lemma {:induction false} RunBuffer(rule: Rule, lines: seq<string>, n: nat)
    requires n <= |lines|
    ensures BufferAt(rule, lines, n)
  {
    if n > 0 {
      RunBuffer(rule, lines, n - 1);
      StepBuffer(rule, lines, n);
    }
  }

  /** After every prefix of the lines the messages sent are rendered, balanced and linked. */
  lemma {:induction false} RunRecord(rule: Rule, lines: seq<string>, n: nat)
    requires n <= |lines|
    ensures RecordAt(rule, lines, n)
  {
    if n > 0 {
      RunRecord(rule, lines, n - 1);
      RunBuffer(rule, lines, n - 1);
      StepRecord(rule, lines, n);
    }
  }

  /** After `n` lines, those lines are in the messages sent or in the buffer. */
  lemma {:induction false} RunFlatten(rule: Rule, lines: seq<string>, n: nat)
    requires n <= |lines|
    ensures Seen(Run(rule, lines, n)) == lines[..n]
  {
    if n > 0 {
      RunFlatten(rule, lines, n - 1);
      StepFlatten(rule, lines, n);
      PrefixSnoc(lines, n);
    }
  }

  lemma PrefixSnoc(lines: seq<string>, n: nat)
    requires 0 < n <= |lines|
    ensures lines[..n] == lines[..n - 1] + [lines[n - 1]]
  {
  }

  /** After the last line the buffer is empty or holds no line. */
  lemma RunEnd(rule: Rule, lines: seq<string>)
    ensures var r := Run(rule, lines, |lines|); r.cur == [] || r.sb == ""
  {
    if lines != [] {
      StepFlatten(rule, lines, |lines|);
    }
  }

  lemma {:induction false} RunCuts(rule: Rule, lines: seq<string>, n: nat)
    requires n <= |lines|
    ensures CutsAt(rule, lines, n)
  {
    if n > 0 {
      RunCuts(rule, lines, n - 1);
      RunBuffer(rule, lines, n - 1);
      StepCuts(rule, lines, n);
    }
  }


  /** The longest line that fits a message between a reopening fence and a closing one. */
  const MaxLineBytes := MaxMessageBytes - 8

  /** Every line fits a message with a reopening and a closing fence around it. */
  predicate LinesFit(lines: seq<string>)
  {
    forall k :: 0 <= k < |lines| ==> ByteLen(lines[k]) <= MaxLineBytes
  }

  /**
    The longest message a rule sends when every line fits: the intended rule
    keeps to Discord's limit; the code can pass it by the 4 bytes of a closing
    fence it did not reserve.
  */
  function Limit(rule: Rule): nat
  {
    match rule
    case AsWritten => MaxMessageBytes + 4
    case Intended => MaxMessageBytes
  }

  /** Every message has at most `limit` bytes. */
  predicate WithinBound(sent: seq<string>, limit: nat)
  {
    forall k :: 0 <= k < |sent| ==> ByteLen(sent[k]) <= limit
  }

  /** The buffer with its closing fence, and every message sent, have at most `limit` bytes. */
  predicate Fits(sb: string, inCode: bool, sent: seq<string>, limit: nat)
  {
    ByteLen(sb) + (if inCode then 4 else 0) <= limit && WithinBound(sent, limit)
  }

  lemma BoundAppend(sent: seq<string>, msg: string, limit: nat)
    requires WithinBound(sent, limit) && ByteLen(msg) <= limit
    ensures WithinBound(sent + [msg], limit)
  {
    var ss := sent + [msg];
    assert forall k :: 0 <= k < |sent| ==> ss[k] == sent[k];
  }

  /** The closing fence adds 4 bytes inside a code block and none outside. */
  lemma CloserBytes(sb: string, inCode: bool)
    ensures ByteLen(sb + Closer(inCode)) == ByteLen(sb) + (if inCode then 4 else 0)
  {
    ByteLenAppend(sb, Closer(inCode));
    if inCode {
      FenceBytes();
      ByteLenAppend("\n", "```");
      assert Closer(inCode) == "\n" + "```";
    } else {
      assert Closer(inCode) == "";
    }
  }

  lemma FenceBytes()
    ensures ByteLen("```") == 3 && ByteLen("\n") == 1
  {
    assert "```"[1..] == "``" && "``"[1..] == "`" && "`"[1..] == "";
    assert "\n"[1..] == "";
  }

  /** A fitting buffer is sent as a message within the bound; the buffer after it holds at most the opener. */
  lemma FlushBound(st: Splitter, limit: nat)
    requires Fits(st.sb, st.inCode, st.sent, limit)
    ensures WithinBound(Flush(st).sent, limit)
    ensures st.sb != "" ==> ByteLen(Flush(st).sb) <= 3
  {
    if st.sb != "" {
      CloserBytes(st.sb, st.inCode);
      BoundAppend(st.sent, st.sb + Closer(st.inCode), limit);
      FenceBytes();
    }
  }

  /** After the cut, the line, its newline and the fence the rule reserves fit in 2000 bytes. */
  lemma CutBound(rule: Rule, st: Splitter, line: string)
    requires Fits(st.sb, st.inCode, st.sent, Limit(rule)) && ByteLen(line) <= MaxLineBytes
    ensures WithinBound(Cut(rule, st, line).sent, Limit(rule)) && Cut(rule, st, line).inCode == st.inCode
    ensures ByteLen(Cut(rule, st, line).sb) + ByteLen(line) + 1 + (if Reserves(rule, st.inCode, line) then 4 else 0)
            <= MaxMessageBytes
  {
    FlushBound(st, Limit(rule));
  }

  /** After `n` lines every message and, while lines remain, the buffer with its closing fence are within the rule's limit. */
  predicate FitsAt(rule: Rule, lines: seq<string>, n: nat)
    requires n <= |lines|
  {
    var r := Run(rule, lines, n);
    WithinBound(r.sent, Limit(rule)) && (n < |lines| ==> Fits(r.sb, r.inCode, r.sent, Limit(rule)))
  }

  /** One line that fits keeps the bound. */
  lemma StepBound(rule: Rule, lines: seq<string>, n: nat)
    requires 0 < n <= |lines| && ByteLen(lines[n - 1]) <= MaxLineBytes && FitsAt(rule, lines, n - 1)
    ensures FitsAt(rule, lines, n)
  {
    var st, line := Run(rule, lines, n - 1), lines[n - 1];
    RunStep(rule, lines, n);
    var cut := Cut(rule, st, line);
    CutBound(rule, st, line);
    WriteBytes(cut, line);
    if n == |lines| {
      FlushBound(Write(cut, line), Limit(rule));
    }
  }

  /** With lines of at most 1992 bytes no message passes the rule's limit. */
  lemma {:induction false} RunBound(rule: Rule, lines: seq<string>, n: nat)
    requires n <= |lines| && LinesFit(lines)
    ensures FitsAt(rule, lines, n)
  {
    if n > 0 {
      RunBound(rule, lines, n - 1);
      StepBound(rule, lines, n);
    } else {
      assert ByteLen("") == 0;
    }
  }

  /** What is written but not sent at the end is a run of empty lines. */
  lemma Coverage(lines: seq<string>, chunks: seq<Chunk>, cur: seq<string>, reopened: bool)
    requires Flatten(chunks) + cur == lines
    requires cur == [] || Glue(Opener(reopened), cur) == ""
    ensures |Flatten(chunks)| <= |lines|
    ensures Flatten(chunks) == lines[..|Flatten(chunks)|]
    ensures forall k :: |Flatten(chunks)| <= k < |lines| ==> lines[k] == ""
  {
    if cur != [] {
      GlueEmpty(Opener(reopened), cur);
      assert forall k :: |Flatten(chunks)| <= k < |lines| ==> lines[k] == cur[k - |Flatten(chunks)|];
    }
  }

  /** The number of empty lines `lines` starts with. */
  function LeadingBlanks(lines: seq<string>): (n: nat)
    ensures n <= |lines|
    ensures forall k :: 0 <= k < n ==> lines[k] == ""
    ensures n < |lines| ==> lines[n] != ""
    decreases |lines|
  {
    if lines == [] || lines[0] != "" then 0 else 1 + LeadingBlanks(lines[1..])
  }

  lemma {:induction false} LeadingBlanksSnoc(lines: seq<string>, line: string)
    ensures LeadingBlanks(lines + [line]) ==
      if LeadingBlanks(lines) < |lines| then LeadingBlanks(lines) else |lines| + (if line == "" then 1 else 0)
    decreases |lines|
  {
    var ls := lines + [line];
    if lines == [] {
      assert ls[1..] == [];
    } else {
      assert ls[0] == lines[0] && ls[1..] == lines[1..] + [line];
      if lines[0] == "" {
        LeadingBlanksSnoc(lines[1..], line);
      }
    }
  }

  /**
    The text of a buffer. After a reopening fence every line follows a
    newline. In an empty buffer the empty lines written first leave no trace,
    because line 881 writes no newline into an empty buffer and the empty line
    adds nothing; from the first non-empty line on, the lines are joined by
    newlines.
  */
  lemma {:induction false} GlueText(start: string, lines: seq<string>)
    ensures start != "" ==> Glue(start, lines) == Join([start] + lines, "\n")
    ensures start == "" ==> Glue(start, lines) == Join(lines[LeadingBlanks(lines)..], "\n")
    decreases |lines|
  {
    if lines == [] {
      assert [start] + lines == [start];
      assert lines[LeadingBlanks(lines)..] == [];
    } else {
      var init, last := lines[..|lines| - 1], lines[|lines| - 1];
      assert lines == init + [last];
      GlueText(start, init);
      LeadingBlanksSnoc(init, last);
      if start != "" {
        assert [start] + lines == ([start] + init) + [last];
        JoinSnoc([start] + init, last, "\n");
        JoinStarts([start] + init, "\n");
      } else {
        var b := LeadingBlanks(init);
        if b < |init| {
          assert lines[b..] == init[b..] + [last];
          JoinSnoc(init[b..], last, "\n");
          JoinStarts(init[b..], "\n");
        } else if last == "" {
          assert lines[|lines|..] == [];
        } else {
          assert lines[|init|..] == [last];
        }
      }
    }
  }

  /**
    The text of a message: one that reopens a block shows every line it
    carries, each after a newline; one that reopens none shows none of the
    empty lines it starts with, and every line from its first non-empty one.
  */
  lemma MessageText(c: Chunk)
    ensures Render(c) == (if c.reopened then Join(["```"] + c.lines, "\n")
                          else Join(c.lines[LeadingBlanks(c.lines)..], "\n")) + Closer(c.closed)
  {
    GlueText(Opener(c.reopened), c.lines);
  }

  /** An empty first line goes into the first message but does not show in its text. */
  lemma BlankLineDropped(rule: Rule, x: string)
    requires x != "" && Fences(x) % 2 == 0 && ByteLen(x) <= MaxLineBytes
    ensures Run(rule, ["", x], 2).sent == [x]
    ensures Run(rule, ["", x], 2).chunks == [Chunk(false, ["", x], false)]
  {
    var lines := ["", x];
    RunStep(rule, lines, 1);
    RunStep(rule, lines, 2);
    assert ByteLen("") == 0 && Fences("") == 0;
    var s1 := Run(rule, lines, 1);
    assert s1 == Splitter("", false, [], [], [""], false);
    assert !Overflows(rule, s1.sb, x, s1.inCode);
    var w := Write(s1, x);
    assert w == Splitter(x, false, [], [], ["", x], false);
    assert Closer(false) == "" && x + "" == x;
    assert Run(rule, lines, 2) == Flush(w);
  }

  /**
    The messages of the whole text and the lines each one carries, under
    either rule. Every line but a trailing run of empty ones goes into a
    message, in order (MessageText states which empty lines a message's text
    does not show); a message is cut only when the next line overflows under
    the rule; a code block left open is closed at the end of a message and
    reopened at the start of the next; and when every line has at most 1992
    bytes no message passes the rule's limit.
  */
  lemma SplitProperties(rule: Rule, lines: seq<string>)
    ensures var r := Run(rule, lines, |lines|);
      && Delivered(r.sent, r.chunks) && Linked(r.chunks) && CutAtOverflow(rule, r.chunks)
      && |Flatten(r.chunks)| <= |lines|
      && Flatten(r.chunks) == lines[..|Flatten(r.chunks)|]
      && (forall k :: |Flatten(r.chunks)| <= k < |lines| ==> lines[k] == "")
      && (LinesFit(lines) ==> WithinBound(r.sent, Limit(rule)))
  {
    var r := Run(rule, lines, |lines|);
    RunRecord(rule, lines, |lines|);
    RunBuffer(rule, lines, |lines|);
    RunFlatten(rule, lines, |lines|);
    RunEnd(rule, lines);
    RunCuts(rule, lines, |lines|);
    assert lines[..|lines|] == lines;
    Coverage(lines, r.chunks, r.cur, r.reopened);
    if LinesFit(lines) {
      RunBound(rule, lines, |lines|);
    }
  }

  /** With the intended rule and lines of at most 1992 bytes, every message keeps to the 2000-byte limit. */
  lemma IntendedWithinLimit(lines: seq<string>)
    requires LinesFit(lines)
    ensures WithinBound(Run(Intended, lines, |lines|).sent, MaxMessageBytes)
  {
    RunBound(Intended, lines, |lines|);
  }

  /**
    As written, a line that opens a code block is let into the buffer with
    no room for the fence that will close it: after a line `a` outside any
    block and a line `b` that opens one, filling the buffer to 2000 bytes,
    any next line cuts the message and it goes out 4 bytes over the limit,
    although every line fits.
  */
  lemma AsWrittenOverflow(a: string, b: string, c: string)
    requires a != "" && Fences(a) % 2 == 0 && Fences(b) % 2 == 1
    requires ByteLen(a) + 1 + ByteLen(b) == MaxMessageBytes
    ensures var r := Run(AsWritten, [a, b, c], 3);
      && r.sent != [] && r.sent[0] == a + "\n" + b + "\n```"
      && ByteLen(r.sent[0]) == MaxMessageBytes + 4
  {
    var lines := [a, b, c];
    RunStep(AsWritten, lines, 1);
    RunStep(AsWritten, lines, 2);
    RunStep(AsWritten, lines, 3);
    var s1 := Run(AsWritten, lines, 1);
    assert ByteLen("") == 0;
    assert s1.sb == a && !s1.inCode;
    var s2 := Run(AsWritten, lines, 2);
    WriteBytes(s1, b);
    assert s2.sb == a + "\n" + b && s2.inCode && s2.sent == [];
    var s3 := Run(AsWritten, lines, 3);
    assert Overflows(AsWritten, s2.sb, c, true);
    assert s3.sent[0] == s2.sb + Closer(true);
    CloserBytes(s2.sb, true);
  }

  /** sendChunk (lines 834-859) on the buffer, the block state and the messages sent. */
  method SendChunk(sb: string, inCode: bool, sent: seq<string>) returns (sb': string, sent': seq<string>)
    ensures sb == "" ==> sb' == sb && sent' == sent
    ensures sb != "" ==> sent' == sent + [sb + Closer(inCode)] && sb' == Opener(inCode)
  {
    if |sb| == 0 {
      return sb, sent;
    }
    var msg := sb;
    if inCode {
      msg := msg + "\n```";
    }
    assert msg == sb + Closer(inCode);
    sent' := sent + [msg];
    sb' := "";
    if inCode {
      sb' := "```";
    }
  }

  /**
    Lines 865-877: the buffer is sent first when the line, a newline and,
    while a block is open before the line, the closing fence would pass the
    limit.
  */
  method CutIfFull(sb: string, inCode: bool, sent: seq<string>, line: string, ghost st: Splitter)
    returns (sb': string, sent': seq<string>)
    requires sb == st.sb && inCode == st.inCode && sent == st.sent
    ensures var r := Cut(AsWritten, st, line); sb' == r.sb && sent' == r.sent
  {
    sb', sent' := sb, sent;
    var overhead := 0;
    if inCode {
      overhead := overhead + 4;
    }
    if ByteLen(sb) + ByteLen(line) + 1 + overhead > MaxMessageBytes {
      sb', sent' := SendChunk(sb, inCode, sent);
    }
  }

  /** Lines 881-890: the line is written after a newline unless the buffer is empty; each fence in it toggles the block state. */
  method WriteLine(sb: string, inCode: bool, line: string, ghost st: Splitter) returns (sb': string, inCode': bool)
    requires sb == st.sb && inCode == st.inCode
    ensures var r := Write(st, line); sb' == r.sb && inCode' == r.inCode
  {
    sb' := sb;
    if |sb'| > 0 {
      sb' := sb' + "\n";
    }
    sb' := sb' + line;
    var count := Fences(line);
    inCode' := inCode;
    for c := 0 to count
      invariant inCode' == (if c % 2 == 0 then inCode else !inCode)
    {
      inCode' := !inCode';
    }
  }

  /** One turn of the loop of sendSplitMessage (lines 862-897); after the last line the buffer is sent. */
  method TakeLine(sb: string, inCode: bool, sent: seq<string>, line: string, last: bool, ghost st: Splitter)
    returns (sb': string, inCode': bool, sent': seq<string>)
    requires sb == st.sb && inCode == st.inCode && sent == st.sent
    ensures var r := Feed(AsWritten, st, line, last); sb' == r.sb && inCode' == r.inCode && sent' == r.sent
  {
    sb', sent' := CutIfFull(sb, inCode, sent, line, st);
    ghost var cut := Cut(AsWritten, st, line);
    sb', inCode' := WriteLine(sb', inCode, line, cut);
    if last {
      sb', sent' := SendChunk(sb', inCode', sent');
    }
  }

  /**
    The loop of sendSplitMessage (lines 861-898) over the lines of the text:
    it sends exactly the messages of the code's rule, of which
    SplitProperties states what they carry.
  */
  method SendLines(lines: seq<string>) returns (sent: seq<string>)
    ensures sent == Run(AsWritten, lines, |lines|).sent
  {
    var sb := "";
    var inCode := false;
    sent := [];
    for i := 0 to |lines|
      invariant var r := Run(AsWritten, lines, i); sb == r.sb && inCode == r.inCode && sent == r.sent
    {
      sb, inCode, sent := TakeLine(sb, inCode, sent, lines[i], i == |lines| - 1, Run(AsWritten, lines, i));
      RunStep(AsWritten, lines, i + 1);
    }
  }

  /**
    sendSplitMessage (lines 827-901): the text is cut at its newlines and the
    lines sent as above; with lines of at most 1992 bytes a message can pass
    2000 bytes by at most a closing fence.
  */
  method SendSplitMessage(content: string) returns (sent: seq<string>)
    ensures var lines := Split(content, '\n');
      var r := Run(AsWritten, lines, |lines|);
      && sent == r.sent
      && Delivered(sent, r.chunks) && Linked(r.chunks) && CutAtOverflow(AsWritten, r.chunks)
      && |Flatten(r.chunks)| <= |lines|
      && Flatten(r.chunks) == lines[..|Flatten(r.chunks)|]
      && (forall k :: |Flatten(r.chunks)| <= k < |lines| ==> lines[k] == "")
      && (LinesFit(lines) ==> WithinBound(sent, MaxMessageBytes + 4))
  {
    var lines := Split(content, '\n');
    sent := SendLines(lines);
    SplitProperties(AsWritten, lines);
  }

  /**
    sendMessage (lines 814-825): when the direct-message channel cannot be
    opened (`channelOpened` is the outcome of UserChannelCreate) nothing is
    sent; otherwise a text of at most 2000 bytes goes out as it is, and a
    longer one goes out as exactly the messages of sendSplitMessage, every
    one with its code blocks balanced.
  */
  method SendMessage(channelOpened: bool, content: string) returns (sent: seq<string>)
    ensures !channelOpened ==> sent == []
    ensures channelOpened && ByteLen(content) <= MaxMessageBytes ==> sent == [content]
    ensures channelOpened && ByteLen(content) > MaxMessageBytes ==>
      sent == Run(AsWritten, Split(content, '\n'), |Split(content, '\n')|).sent
    ensures channelOpened && ByteLen(content) > MaxMessageBytes ==> forall k :: 0 <= k < |sent| ==> Fences(sent[k]) % 2 == 0
  {
    if !channelOpened {
      return [];
    }
    if ByteLen(content) > MaxMessageBytes {
      sent := SendSplitMessage(content);
      ghost var lines := Split(content, '\n');
      ghost var chunks := Run(AsWritten, lines, |lines|).chunks;
      forall k | 0 <= k < |sent|
        ensures Fences(sent[k]) % 2 == 0
      {
        assert Carries(sent[k], chunks[k]);
      }
    } else {
      sent := [content];
    }
  }
}
