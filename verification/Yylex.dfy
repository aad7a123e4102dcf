/** The generated scanner at work (skel.c: yylex): every token is the longest match of what is left of the input,
    however the input is read, and whatever characters are in it, unless transitions on NUL have a table of their own
    and the longest match stands in front of a NUL. */
module Yylex {
  import opened Results
  import opened Regex
  import opened Rules
  import opened Scanner
  import opened Gentabs
  import opened Matcher
  import opened Forgotten
  import opened InputBuffer

  /** What a call of yylex comes to; it can be that it does not come back. */
  datatype Token = Eof | Token(act: int, text: seq<int>) | Endless

  /** Within a token: what is pending in the buffer and what is unread is the text to be scanned. */
  ghost predicate InToken(buf: Buffer, b: Build, text: seq<int>)
    reads buf, buf.chBuf
  {
    Holds(buf, text) && IsText(b, text)
  }

  ghost predicate Holds(buf: Buffer, text: seq<int>)
    reads buf, buf.chBuf
  {
    buf.Shape() && buf.Ended() && buf.Counted() && buf.Pending() + buf.Unread() == text
  }

  /** The buffer from the beginning of the token on. */
  function View(buf: Buffer): seq<int>
    reads buf, buf.chBuf
    requires buf.textPtr <= buf.nChars && buf.nChars + 2 <= buf.chBuf.Length
  {
    buf.chBuf[buf.textPtr..buf.nChars + 2]
  }

  lemma ViewWindow(buf: Buffer, b: Build, text: seq<int>)
    requires InToken(buf, b, text)
    ensures buf.textPtr <= buf.nChars && buf.nChars + 2 <= buf.chBuf.Length
            && |View(buf)| == buf.nChars - buf.textPtr + 2
    ensures Window(b, text, View(buf)) && buf.nChars - buf.textPtr <= |text|
  {
    var view, m := View(buf), buf.nChars - buf.textPtr;
    assert view[m] == buf.chBuf[buf.nChars] && view[m + 1] == buf.chBuf[buf.nChars + 1];
    forall k | 0 <= k < m ensures view[k] == text[k] {
      assert text[k] == (buf.Pending() + buf.Unread())[k] == buf.Pending()[k];
    }
  }

  /** YY_DO_BEFORE_ACTION: the token has n characters. */
  method BeforeAction(buf: Buffer, n: nat, ghost text: seq<int>)
    requires Holds(buf, text) && n <= buf.nChars - buf.textPtr
    modifies buf`cBufP, buf`holdChar, buf.chBuf
    ensures buf.Valid() && buf.Counted() && buf.textPtr <= buf.cBufP == buf.textPtr + n <= buf.chBuf.Length
            && n <= |text|
    ensures buf.chBuf[buf.textPtr..buf.cBufP] == text[..n] && buf.Stream() == text[n..]
    ensures buf.Unread() == old(buf.Unread())
  {
    hide Flatten;
    ghost var now := buf.chBuf[..];
    buf.cBufP := buf.textPtr + n;
    buf.holdChar := buf.chBuf[buf.cBufP];
    buf.chBuf[buf.cBufP] := 0;
    Behind(now, buf.chBuf[..], buf.textPtr, n, buf.nChars, buf.Unread(), text);
  }

  lemma Behind(now: seq<int>, after: seq<int>, p: nat, n: nat, end: nat, unread: seq<int>, text: seq<int>)
    requires p + n <= end < |now| && after == now[p + n := 0] && text == now[p..end] + unread
    ensures n <= |text| && after[p..p + n] == text[..n]
    ensures (if p + n < end then [now[p + n]] + after[p + n + 1..end] else []) + unread == text[n..]
  {
    assert text[n..] == now[p + n..end] + unread;
    if p + n < end { assert now[p + n..end] == [now[p + n]] + now[p + n + 1..end]; }
  }

  /** The beginning of a token. */
  method BeginToken(buf: Buffer, ghost b: Build)
    requires buf.Valid() && buf.Counted() && IsText(b, buf.Stream())
    modifies buf`textPtr, buf.chBuf
    ensures InToken(buf, b, old(buf.Stream())) && buf.Unread() == old(buf.Unread())
  {
    hide Buffer.Valid, Buffer.Shape, Buffer.Ended, Buffer.Counted, Buffer.Stream, Buffer.Pending,
         Buffer.Unread, Flatten, IsText;
    buf.Begin();
  }

  /** What a character 0 in the buffer is: a NUL of the text, or the end of the buffer, behind which there is more, or
      only what is pending, or nothing. */
  datatype Zero = Nul | More | Last | End

  /** The end-of-buffer action of yylex, as far as the buffer is concerned: the scanner has passed a character 0 behind
      n characters of the text. */
  method PassedZero(buf: Buffer, ghost b: Build, n: nat, ghost text: seq<int>) returns (r: Result<Zero>)
    requires InToken(buf, b, text) && n <= buf.nChars - buf.textPtr
    modifies buf, buf.chBuf
    ensures r.Failure? ==> r.error == BufferOverflow && !old(buf.ours) && old(buf.fill)
    ensures r.Success? ==> (buf.chBuf == old(buf.chBuf) || fresh(buf.chBuf)) && buf.ours == old(buf.ours)
                           && buf.fill == old(buf.fill)
    ensures r.Success? ==> if r.value.End? then text == [] && buf.Valid() && buf.Counted() && buf.Stream() == []
            else InToken(buf, b, text)
    ensures r.Success? && r.value.Nul? ==> n < buf.nChars - buf.textPtr && View(buf) == old(View(buf))
                                           && buf.Unread() == old(buf.Unread())
    ensures n < old(buf.nChars) - old(buf.textPtr) ==> r.Success? && r.value.Nul?
    ensures r.Success? && old(buf.Unread()) == [] ==> buf.Unread() == []
    ensures r.Success? && r.value.More?
            ==> n < buf.nChars - buf.textPtr && |buf.Unread()| < |old(buf.Unread())| == |text| - n
    ensures r.Success? && !r.value.More? ==> |buf.Unread()| == |old(buf.Unread())|
    ensures r.Success? && r.value.Last? ==> n == buf.nChars - buf.textPtr == |text| > 0
  {
    hide *;
    InTokenIs(buf, b, text);
    Arrive(buf, b, n, text);
    if buf.cBufP <= buf.nChars { return Success(Nul); }
    r := AtEnd(buf, b, n, text);
  }

  /** The start of the action: a buffer that was new is not new any longer. */
  method Arrive(buf: Buffer, ghost b: Build, n: nat, ghost text: seq<int>)
    requires InToken(buf, b, text) && n <= buf.nChars - buf.textPtr
    modifies buf`cBufP, buf`nChars, buf`status
    ensures InToken(buf, b, text) && buf.nChars == old(buf.nChars) && buf.status != New
            && buf.Unread() == old(buf.Unread())
    ensures buf.cBufP == buf.textPtr + n + 1 && View(buf) == old(View(buf))
  {
    hide Flatten, IsText;
    buf.cBufP := buf.textPtr + n + 1;
    if buf.status == New {
      buf.nChars := buf.bufChars;
      buf.status := Normal;
    }
  }

  /** The real end of the buffer. */
  method AtEnd(buf: Buffer, ghost b: Build, n: nat, ghost text: seq<int>) returns (r: Result<Zero>)
    requires InToken(buf, b, text) && n == buf.nChars - buf.textPtr && buf.cBufP == buf.nChars + 1 && buf.status != New
    modifies buf, buf.chBuf
    ensures r.Failure? ==> r.error == BufferOverflow && !old(buf.ours) && old(buf.fill)
    ensures r.Success? && old(buf.Unread()) == [] ==> buf.Unread() == []
    ensures r.Success? ==> !r.value.Nul? && (buf.chBuf == old(buf.chBuf) || fresh(buf.chBuf))
                           && buf.ours == old(buf.ours) && buf.fill == old(buf.fill)
    ensures r.Success? ==> if r.value.End? then text == [] && buf.Valid() && buf.Counted() && buf.Stream() == []
            else InToken(buf, b, text)
    ensures r.Success? && r.value.More?
            ==> n < buf.nChars - buf.textPtr && |buf.Unread()| < |old(buf.Unread())| == |text| - n
    ensures r.Success? && !r.value.More? ==> |buf.Unread()| == |old(buf.Unread())|
    ensures r.Success? && r.value.Last? ==> n == buf.nChars - buf.textPtr == |text| > 0
  {
    hide *;
    ghost var status, unread := buf.status, buf.Unread();
    InTokenIs(buf, b, text);
    EndActIs(buf);
    var got := buf.GetNextBuffer();
    if got.Failure? { return Failure(got.error); }
    var act := got.value;
    AfterRead(buf, b, n, act, status, |unread|, text);
    if act == EndOfFile {
      Rewind(buf);
      return Success(End);
    }
    return Success(if act == ContinueScan then More else Last);
  }

  lemma InTokenIs(buf: Buffer, b: Build, text: seq<int>)
    requires InToken(buf, b, text)
    ensures buf.Shape() && buf.Ended() && buf.Counted() && buf.Pending() + buf.Unread() == text && IsText(b, text)
    ensures buf.textPtr <= buf.nChars && |buf.Pending()| == buf.nChars - buf.textPtr
  {
    hide Flatten, IsText;
  }

  lemma EndActIs(buf: Buffer)
    requires buf.Shape()
    ensures buf.EndAct() == if |buf.Unread()| > 0 then ContinueScan
                            else if buf.textPtr < buf.nChars then LastMatch else EndOfFile
  {}

  /** What the buffer is like after yy_get_next_buffer, when n characters were pending. */
  lemma AfterRead(buf: Buffer, b: Build, n: nat, act: EobAct, status: Status, unread: nat, text: seq<int>)
    requires buf.Shape() && buf.Ended() && buf.Pending() + buf.Unread() == text && IsText(b, text) && status != New
    requires if buf.fill then
               buf.textPtr == 0 && buf.Filled(act, status, n, unread)
             else buf.status == status && n == buf.nChars - buf.textPtr && |buf.Unread()| == unread
    requires act == if unread > 0 then ContinueScan else if n > 0 then LastMatch else EndOfFile
    requires |text| == n + unread
    ensures act == EndOfFile ==> text == [] && buf.Counted() && buf.Pending() == [] && buf.Unread() == []
    ensures act != EndOfFile ==> InToken(buf, b, text)
    ensures if act == ContinueScan then n < buf.nChars - buf.textPtr && |buf.Unread()| < unread
            else |buf.Unread()| == unread
    ensures act == LastMatch ==> n == buf.nChars - buf.textPtr == |text| > 0
  {
    hide Flatten, IsText;
  }

  /** Nothing is left to scan. */
  method Rewind(buf: Buffer)
    requires buf.Shape() && buf.Ended() && buf.Counted() && buf.Pending() == [] && buf.Unread() == []
    modifies buf`cBufP, buf`holdChar
    ensures buf.Valid() && buf.Counted() && buf.Stream() == [] && buf.Unread() == []
  {
    hide Flatten;
    buf.cBufP := buf.textPtr;
    buf.holdChar := buf.chBuf[buf.cBufP];
  }

  /** What the end-of-buffer action comes to: matching goes on, a rule is found, the action is entered again with
      nothing changed, or the input is at its end. */
  datatype Step = Resume(cp: int, state: int, lastState: int, lastCp: int) | Found(act: int, len: int) | Again | AtEof

  /** The position that may have been forgotten when matching goes on at cp. */
  function SkipAt(b: Build, n: int, cp: int): int {
    if b.useNul && cp == n + 1 then n else -1
  }

  /** Matching can go on at cp. */
  ghost predicate Resumes(lexer: Lexer, i: int, text: seq<int>, cp: int, skip: int, state: int, lastState: int,
                          lastCp: int) {
    OnRun(lexer.b, i, text, cp, state) && Noted(lexer.b, lexer.t, i, text, cp, skip, lastState, lastCp)
  }

  /** Behind n characters the text is at its end, or has a NUL on which the DFA jams, and a rule has been found; one in
      front of the NUL may have been forgotten. */
  ghost predicate FoundAt(lexer: Lexer, i: int, interactive: bool, n: int, text: seq<int>, act: int, len: int) {
    && IsText(lexer.b, text) && 0 <= n <= |text|
    && if n == |text| then Longest(lexer.b, i, text, act, len)
       else text[n] == 0 && StateAt(lexer.b, i, text, n + 1) == 0
            && LongestBut(lexer.b, i, text, if lexer.b.useNul && !interactive then n else -1, act, len)
  }

  /** What the end-of-buffer action comes to is right. */
  ghost predicate StepOk(lexer: Lexer, buf: Buffer, i: int, interactive: bool, n: int, step: Step, text: seq<int>)
    reads buf
  {
    match step
    case Resume(cp, state, lastState, lastCp) =>
      && Resumes(lexer, i, text, cp, SkipAt(lexer.b, n, cp), state, lastState, lastCp) && n <= cp <= n + 1
      && 0 <= cp <= buf.nChars - buf.textPtr <= |text| && (cp == n + 1 ==> 0 <= n < |text| && text[n] == 0)
    case Found(act, len) =>
      text != [] && FoundAt(lexer, i, interactive, n, text, act, len) && 0 <= len <= buf.nChars - buf.textPtr
    case Again =>
      && lexer.b.useNul && !interactive && n == 1 < |text| && text[1] == 0 && OnlyAt(lexer.b, i, text, 1)
      && IsText(lexer.b, text) && StateAt(lexer.b, i, text, 2) == 0
    case AtEof => text == []
  }

  /** The end-of-buffer action of yylex: behind n characters of the text, at which the DFA is still running, the scanner
      has passed a character 0. */
  method EndOfBuffer(lexer: Lexer, buf: Buffer, i: int, interactive: bool, n: int, lastState0: int, lastCp0: int,
                     ghost text: seq<int>)
    returns (r: Result<Step>)
    requires lexer.Valid() && 1 <= i < |lexer.b.starts| && HasDefault(lexer.b, i) && InToken(buf, lexer.b, text)
    requires 0 <= n <= buf.nChars - buf.textPtr && View(buf)[n] == 0 && StateAt0(lexer.b, i, text, n)
    requires lexer.b.useNul ==> lastState0 == lexer.b.eob && lastCp0 == n + 1
    modifies buf, buf.chBuf
    ensures r.Failure? ==> r.error == BufferOverflow && !old(buf.ours) && old(buf.fill)
    ensures r.Success? ==> (buf.chBuf == old(buf.chBuf) || fresh(buf.chBuf)) && buf.ours == old(buf.ours)
                           && buf.fill == old(buf.fill)
    ensures r.Success? ==> if r.value.AtEof? then buf.Valid() && buf.Counted() && buf.Stream() == []
            else InToken(buf, lexer.b, text)
    ensures r.Success? ==> StepOk(lexer, buf, i, interactive, n, r.value, text)
    ensures r.Success? && r.value.Resume? && r.value.cp == n ==> |buf.Unread()| < |old(buf.Unread())| == |text| - n
    ensures r.Success? && !(r.value.Resume? && r.value.cp == n) ==> |buf.Unread()| == |old(buf.Unread())|
    ensures r.Success? && old(buf.Unread()) == [] ==> buf.Unread() == []
    ensures n < old(buf.nChars) - old(buf.textPtr)
            ==> r.Success? && View(buf) == old(View(buf)) && buf.Unread() == old(buf.Unread())
                && (r.value.Resume? ==> r.value.cp == n + 1)
  {
    hide *;
    var zero := PassedZero(buf, lexer.b, n, text);
    if zero.Failure? { return Failure(zero.error); }
    if zero.value.End? {
      EofOk(lexer, buf, i, interactive, n, text);
      return Success(AtEof);
    }
    ValidSides(lexer);
    ViewWindow(buf, lexer.b, text);
    var state, lastState, lastCp := lexer.GetPreviousState(i, View(buf), n, lastState0, lastCp0, text);
    if zero.value.More? {
      ResumeOk(lexer, buf, i, interactive, n, n, state, lastState, lastCp, text);
      return Success(Resume(n, state, lastState, lastCp));
    } else if zero.value.Last? {
      var act, len := lexer.LastMatch(i, n, state, lastState, lastCp, text);
      LastOk(lexer, buf, i, interactive, n, act, len, text);
      return Success(Found(act, len));
    }
    WindowNul(lexer.b, text, View(buf), n);
    var next;
    next, lastState, lastCp := lexer.TryNulTrans(i, n, state, lastState, lastCp, text);
    if next != 0 {
      ResumeOk(lexer, buf, i, interactive, n, n + 1, next, lastState, lastCp, text);
      return Success(Resume(n + 1, next, lastState, lastCp));
    }
    var act, len := lexer.BackUp(i, n, state, lastState, lastCp, interactive, text);
    if act == lexer.numRules + 1 {
      AgainOk(lexer, buf, i, interactive, n, text);
      return Success(Again);
    }
    FoundOk(lexer, buf, i, interactive, n, act, len, text);
    return Success(Found(act, len));
  }

  lemma EofOk(lexer: Lexer, buf: Buffer, i: int, interactive: bool, n: int, text: seq<int>)
    requires text == []
    ensures StepOk(lexer, buf, i, interactive, n, AtEof, text)
  {}

  lemma ResumeOk(lexer: Lexer, buf: Buffer, i: int, interactive: bool, n: int, cp: int, state: int, lastState: int,
                 lastCp: int, text: seq<int>)
    requires OnRun(lexer.b, i, text, cp, state)
    requires Noted(lexer.b, lexer.t, i, text, cp, if lexer.b.useNul && cp == n + 1 then n else -1, lastState, lastCp)
    requires 0 <= n <= cp <= n + 1 && cp <= buf.nChars - buf.textPtr <= |text|
             && (cp == n + 1 ==> n < |text| && text[n] == 0)
    ensures StepOk(lexer, buf, i, interactive, n, Resume(cp, state, lastState, lastCp), text)
  {
    hide OnRun, Noted;
  }

  lemma LastOk(lexer: Lexer, buf: Buffer, i: int, interactive: bool, n: int, act: int, len: int, text: seq<int>)
    requires IsText(lexer.b, text) && Longest(lexer.b, i, text, act, len) && n == |text|
    requires len <= buf.nChars - buf.textPtr && text != []
    ensures StepOk(lexer, buf, i, interactive, n, Found(act, len), text)
  {}

  lemma FoundOk(lexer: Lexer, buf: Buffer, i: int, interactive: bool, n: int, act: int, len: int, text: seq<int>)
    requires IsText(lexer.b, text) && 0 <= n < |text| && text[n] == 0 && StateAt(lexer.b, i, text, n + 1) == 0
    requires LongestBut(lexer.b, i, text, if lexer.b.useNul && !interactive then n else -1, act, len)
    requires len <= buf.nChars - buf.textPtr
    ensures StepOk(lexer, buf, i, interactive, n, Found(act, len), text)
  {
    hide FirstRule, StateAt;
  }

  lemma AgainOk(lexer: Lexer, buf: Buffer, i: int, interactive: bool, n: int, text: seq<int>)
    requires IsText(lexer.b, text) && lexer.b.useNul && !interactive && n == 1 < |text| && text[1] == 0
    requires OnlyAt(lexer.b, i, text, n) && StateAt(lexer.b, i, text, n + 1) == 0
    ensures StepOk(lexer, buf, i, interactive, n, Again, text)
  {
    hide OnlyAt, StateAt;
  }

  lemma WindowNul(b: Build, text: seq<int>, buf: seq<int>, n: int)
    requires Window(b, text, buf) && 0 <= n < |buf| - 2 && buf[n] == 0
    ensures n < |text| && text[n] == 0
  {}

  /** The scanner stands behind a NUL, and nothing else has been noted than that it has passed it; so it passes it once
      more, and everything is as before. */
  method PassAgain(lexer: Lexer, buf: Buffer, i: int, interactive: bool, cp: int, state: int, lastState: int,
                   lastCp: int, ghost text: seq<int>)
    returns (step: Step)
    requires lexer.Valid() && 1 <= i < |lexer.b.starts| && HasDefault(lexer.b, i) && InToken(buf, lexer.b, text)
    requires cp == 2 <= buf.nChars - buf.textPtr <= |text| && text[1] == 0 && lexer.b.useNul
    requires OnlyAt(lexer.b, i, text, 1) && Resumes(lexer, i, text, cp, 1, state, lastState, lastCp)
    modifies buf, buf.chBuf
    ensures InToken(buf, lexer.b, text) && View(buf) == old(View(buf)) && buf.Unread() == old(buf.Unread())
    ensures (buf.chBuf == old(buf.chBuf) || fresh(buf.chBuf)) && buf.ours == old(buf.ours) && buf.fill == old(buf.fill)
    ensures step == Resume(cp, state, lastState, lastCp)
  {
    hide *;
    ResumesAre(lexer, i, text, cp, 1, state, lastState, lastCp);
    ValidSides(lexer);
    ViewWindow(buf, lexer.b, text);
    WindowText(lexer.b, text, View(buf), 1);
    RunBefore(lexer.b, lexer.t, i, text, cp, 1, lastState, lastCp);
    OnlyNone(lexer.b, lexer.t, lexer.yyEc, i, text, cp, 1, lastState, lastCp);
    var r := EndOfBuffer(lexer, buf, i, interactive, 1, lastState, lastCp, text);
    step := r.value;
    RunState(lexer.b, i, text, cp, state);
    StepResumes(lexer, buf, i, interactive, 1, step, text, state);
    StepMeans(lexer, buf, i, interactive, 1, step, text);
    ghost var ls, lc := step.lastState, step.lastCp;
    ResumesAre(lexer, i, text, cp, 1, step.state, ls, lc);
    RunState(lexer.b, i, text, cp, step.state);
    OnlyNone(lexer.b, lexer.t, lexer.yyEc, i, text, cp, 1, ls, lc);
  }

  lemma StepResumes(lexer: Lexer, buf: Buffer, i: int, interactive: bool, n: int, step: Step, text: seq<int>,
                    state: int)
    requires StepOk(lexer, buf, i, interactive, n, step, text) && 0 <= n < |text|
    requires OnRun(lexer.b, i, text, n + 1, state)
    ensures step.Resume?
  {
    hide Resumes, StateAt, OnlyAt, LongestBut, Longest;
  }

  lemma ResumesAre(lexer: Lexer, i: int, text: seq<int>, cp: int, skip: int, state: int, lastState: int, lastCp: int)
    ensures Resumes(lexer, i, text, cp, skip, state, lastState, lastCp)
            <==> OnRun(lexer.b, i, text, cp, state) && Noted(lexer.b, lexer.t, i, text, cp, skip, lastState, lastCp)
  {}

  lemma RunBefore(b: Build, t: ScanTables, i: int, text: seq<int>, cp: int, skip: int, lastState: int, lastCp: int)
    requires Noted(b, t, i, text, cp, skip, lastState, lastCp) && 0 <= skip < cp
    ensures skip <= |text| && StateAt0(b, i, text, skip)
  {}

  /** Where nothing but the forgotten prefix is matched, the NUL behind it is all that has been noted. */
  lemma OnlyNone(b: Build, t: ScanTables, yyEc: seq<int>, i: int, text: seq<int>, cp: int, skip: int, lastState: int,
                 lastCp: int)
    requires NfaSide(b) && DfaSide(b) && TableSide(b, t, yyEc) && 1 <= i < |b.starts|
    requires Noted(b, t, i, text, cp, skip, lastState, lastCp) && skip >= 0 && OnlyAt(b, i, text, skip)
    ensures lastState == b.eob && lastCp == skip + 1
  {
    hide NfaSide, DfaSide, TableSide, FirstRule, OnRun;
    if NotedAt(b, t, i, text, cp, skip, lastState, lastCp) {
      AcceptText(b, t, yyEc, i, text, lastCp);
      FirstOne(b, i, text[..lastCp], AcceptAt(b, t, i, text, lastCp), 0);
    }
  }

  /** The scanner stands at cp, where it has begun to match: at the beginning, or where the buffer has been filled last,
      at since; or behind a NUL, and with a table for NUL the position in front of it may have been forgotten. */
  ghost predicate BegunAt(b: Build, text: seq<int>, cp: int, skip: int, since: int) {
    0 <= since <= cp <= |text| && if b.useNul then Begun(text, cp, skip, since) else skip == -1
  }

  /** A rule has been found: the longest match, or, in front of a NUL, one that is shorter. Which of them depends on
      where the buffer has been filled last. */
  ghost predicate Right(lexer: Lexer, i: int, interactive: bool, since: int, text: seq<int>, act: int, len: int) {
    && 0 <= len <= |text|
    && (Longest(lexer.b, i, text, act, len) || (lexer.b.useNul && exists n :: Cut(lexer.b, i, text, n, act, len)))
    && (Longest(lexer.b, i, text, act, len) <==> !Forgets(lexer.b, lexer.t, i, text, since, interactive))
  }

  /** The match loop has found a rule. */
  lemma MatchedRight(lexer: Lexer, i: int, interactive: bool, since: int, text: seq<int>, cp: int, skip: int,
                     stop: int, act: int, len: int)
    requires lexer.Valid() && 1 <= i < |lexer.b.starts| && HasDefault(lexer.b, i) && IsText(lexer.b, text)
    requires text != [] && BegunAt(lexer.b, text, cp, skip, since) && LongestBut(lexer.b, i, text, skip, act, len)
    requires Stops(lexer.b, lexer.t, i, text, cp, stop, interactive)
    ensures Right(lexer, i, interactive, since, text, act, len)
  {
    hide NfaSide, DfaSide, TableSide, HasDefault, FirstRule, StateAt, Stops;
    var b, t := lexer.b, lexer.t;
    ButOr(b, i, text, skip, act, len);
    if b.useNul {
      FoundRight(b, t, lexer.yyEc, i, text, cp, skip, since, stop, act, len, interactive);
    }
  }

  /** The end-of-buffer action has found a rule. */
  lemma BackedUpRight(lexer: Lexer, i: int, interactive: bool, since: int, text: seq<int>, cp: int, skip: int,
                      n: int, act: int, len: int)
    requires lexer.Valid() && 1 <= i < |lexer.b.starts| && HasDefault(lexer.b, i) && text != []
    requires BegunAt(lexer.b, text, cp, skip, since) && FoundAt(lexer, i, interactive, n, text, act, len)
    requires 0 <= cp <= n && StateAt0(lexer.b, i, text, n) && NoNul(text, cp, n)
    requires Awake(lexer.b, lexer.t, i, text, cp, n + 1, interactive)
    ensures Right(lexer, i, interactive, since, text, act, len)
  {
    hide NfaSide, DfaSide, TableSide, HasDefault, FirstRule, StateAt, Stops, Awake;
    var b, t := lexer.b, lexer.t;
    if n < |text| { ButOr(b, i, text, if b.useNul && !interactive then n else -1, act, len); }
    if b.useNul {
      assert Reaching(b, t, i, text, cp, n, interactive);
      if n == |text| {
        LastRight(b, t, lexer.yyEc, i, text, cp, skip, since, interactive);
      } else {
        BackUpRight(b, t, lexer.yyEc, i, text, cp, skip, since, n, act, len, interactive);
      }
    }
  }

  /** The action of a rule is about to begin. */
  method Accept(lexer: Lexer, buf: Buffer, i: int, interactive: bool, act: int, len: int, ghost since: int,
                ghost text: seq<int>)
    returns (token: Token)
    requires InToken(buf, lexer.b, text) && 0 <= len <= buf.nChars - buf.textPtr && text != []
    requires Right(lexer, i, interactive, since, text, act, len)
    modifies buf, buf.chBuf
    ensures buf.Valid() && buf.Counted() && buf.chBuf == old(buf.chBuf) && buf.ours == old(buf.ours)
            && buf.fill == old(buf.fill)
    ensures token.Token? && TokenIs(lexer, i, interactive, since, text, token, buf.Stream())
    ensures buf.Unread() == old(buf.Unread())
  {
    hide *;
    TextOf(buf, lexer.b, text);
    BeforeAction(buf, len, text);
    FoundToken(lexer, i, interactive, since, text, act, buf.chBuf[buf.textPtr..buf.cBufP], buf.Stream());
    token := Token(act, buf.chBuf[buf.textPtr..buf.cBufP]);
  }

  /** In a call that begins with unread characters of the text not read yet, and has left now of them, the buffer has
      been filled last behind since characters, or, where since is 0, at the beginning or not at all. */
  ghost predicate FilledAt(since: int, text: seq<int>, unread: int, now: int) {
    && 0 <= now <= unread
    && if since > 0 then now < |text| - since <= unread else since == 0 && (now == unread || |text| == unread)
  }

  /** What one round of the scanner comes to: the call is at its end, or matching goes on. */
  datatype Round = Done(token: Token) | On(cp: int, state: int, lastState: int, lastCp: int)

  /** One round: the match loop, and the end-of-buffer action when that has been reached. */
  method OneRound(lexer: Lexer, buf: Buffer, i: int, interactive: bool, cp: int, state: int, lastState: int,
                  lastCp: int, ghost skip: int, ghost since: int, ghost unread: int, ghost text: seq<int>)
    returns (r: Result<Round>, ghost skip': int, ghost since': int)
    requires lexer.Valid() && 1 <= i < |lexer.b.starts| && HasDefault(lexer.b, i) && InToken(buf, lexer.b, text)
    requires 0 <= cp <= buf.nChars - buf.textPtr <= |text|
    requires Resumes(lexer, i, text, cp, skip, state, lastState, lastCp)
    requires BegunAt(lexer.b, text, cp, skip, since) && FilledAt(since, text, unread, |buf.Unread()|)
    modifies buf, buf.chBuf
    ensures r.Failure? ==> r.error == BufferOverflow && !old(buf.ours) && old(buf.fill)
    ensures r.Success? ==> (buf.chBuf == old(buf.chBuf) || fresh(buf.chBuf)) && buf.ours == old(buf.ours)
                           && buf.fill == old(buf.fill) && FilledAt(since', text, unread, |buf.Unread()|)
    ensures r.Success? && r.value.Done? ==> Finished(lexer, buf, i, interactive, since', text, r.value.token)
    ensures r.Success? && r.value.On? ==> InToken(buf, lexer.b, text)
                                          && 0 <= r.value.cp <= buf.nChars - buf.textPtr <= |text|
    ensures r.Success? && r.value.On?
            ==> Resumes(lexer, i, text, r.value.cp, skip', r.value.state, r.value.lastState, r.value.lastCp)
                && BegunAt(lexer.b, text, r.value.cp, skip', since')
    ensures r.Success? && r.value.On?
            ==> r.value.cp > cp || (r.value.cp == cp && |buf.Unread()| < |old(buf.Unread())|)
  {
    hide *;
    ghost var b := lexer.b;
    skip', since' := skip, since;
    ValidSides(lexer);
    ViewWindow(buf, b, text);
    TextOf(buf, b, text);
    ResumesAre(lexer, i, text, cp, skip, state, lastState, lastCp);
    BegunFacts(b, text, cp, skip, since);
    var act, len, state1, lastState1, lastCp1;
    ghost var stop;
    act, len, state1, lastState1, lastCp1, stop := lexer.YyMatch(i, View(buf), cp, state, lastState,
        lastCp, interactive, skip, text);
    if act != lexer.numRules + 1 {
      ButRange(b, i, text, skip, act, len);
      MatchedRight(lexer, i, interactive, since, text, cp, skip, stop, act, len);
      var token := Accept(lexer, buf, i, interactive, act, len, since, text);
      FilledStays(since, text, unread, |old(buf.Unread())|, |buf.Unread()|);
      FinishedToken(lexer, buf, i, interactive, since, text, token);
      return Success(Done(token)), skip', since';
    }
    if len == cp {
      var same := PassAgain(lexer, buf, i, interactive, cp, state, lastState, lastCp, text);
      assert same == Resume(cp, state, lastState, lastCp);
      Hanging(lexer, i, interactive, since, text, stop);
      FinishedNot(lexer, buf, i, interactive, since, text);
      return Success(Done(Endless)), skip', since';
    }
    NulFree(b, text, View(buf), cp, len - 1);
    r, skip', since' := BehindZero(lexer, buf, i, interactive, cp, len - 1, lastState1, lastCp1, skip, since, unread,
        text);
  }

  /** The end-of-buffer action of a round. */
  method BehindZero(lexer: Lexer, buf: Buffer, i: int, interactive: bool, ghost cp: int, n: int, lastState: int,
                    lastCp: int, ghost skip: int, ghost since: int, ghost unread: int, ghost text: seq<int>)
    returns (r: Result<Round>, ghost skip': int, ghost since': int)
    requires lexer.Valid() && 1 <= i < |lexer.b.starts| && HasDefault(lexer.b, i) && InToken(buf, lexer.b, text)
    requires 0 <= cp <= n <= buf.nChars - buf.textPtr <= |text| && View(buf)[n] == 0 && StateAt0(lexer.b, i, text, n)
    requires lexer.b.useNul ==> lastState == lexer.b.eob && lastCp == n + 1
    requires NoNul(text, cp, n) && Awake(lexer.b, lexer.t, i, text, cp, n + 1, interactive)
    requires BegunAt(lexer.b, text, cp, skip, since) && FilledAt(since, text, unread, |buf.Unread()|)
    modifies buf, buf.chBuf
    ensures r.Failure? ==> r.error == BufferOverflow && !old(buf.ours) && old(buf.fill)
    ensures r.Success? ==> (buf.chBuf == old(buf.chBuf) || fresh(buf.chBuf)) && buf.ours == old(buf.ours)
                           && buf.fill == old(buf.fill) && FilledAt(since', text, unread, |buf.Unread()|)
    ensures r.Success? && r.value.Done? ==> Finished(lexer, buf, i, interactive, since', text, r.value.token)
    ensures r.Success? && r.value.On? ==> InToken(buf, lexer.b, text)
                                          && 0 <= r.value.cp <= buf.nChars - buf.textPtr <= |text|
    ensures r.Success? && r.value.On?
            ==> Resumes(lexer, i, text, r.value.cp, skip', r.value.state, r.value.lastState, r.value.lastCp)
                && BegunAt(lexer.b, text, r.value.cp, skip', since')
    ensures r.Success? && r.value.On?
            ==> r.value.cp > cp || (r.value.cp == cp && |buf.Unread()| < |old(buf.Unread())|)
  {
    hide *;
    ghost var b, before := lexer.b, |buf.Unread()|;
    skip', since' := skip, since;
    var done := EndOfBuffer(lexer, buf, i, interactive, n, lastState, lastCp, text);
    if done.Failure? { return Failure(done.error), skip', since'; }
    var step := done.value;
    StepMeans(lexer, buf, i, interactive, n, step, text);
    BegunFacts(b, text, cp, skip, since);
    match step
    case AtEof =>
      FilledStays(since, text, unread, before, |buf.Unread()|);
      EofToken(lexer, i, interactive, since);
      FinishedToken(lexer, buf, i, interactive, since, text, Eof);
      return Success(Done(Eof)), skip', since';
    case Again =>
      FilledStays(since, text, unread, before, |buf.Unread()|);
      Hanging(lexer, i, interactive, since, text, 1);
      FinishedNot(lexer, buf, i, interactive, since, text);
      return Success(Done(Endless)), skip', since';
    case Found(act1, len1) =>
      BackedUpRight(lexer, i, interactive, since, text, cp, skip, n, act1, len1);
      var token := Accept(lexer, buf, i, interactive, act1, len1, since, text);
      FilledStays(since, text, unread, before, |buf.Unread()|);
      FinishedToken(lexer, buf, i, interactive, since, text, token);
      return Success(Done(token)), skip', since';
    case Resume(cp1, state2, lastState2, lastCp2) =>
      skip' := SkipAt(b, n, cp1);
      if cp1 == n {
        since' := n;
        FilledNow(n, since, text, unread, before, |buf.Unread()|);
      } else {
        FilledStays(since, text, unread, before, |buf.Unread()|);
      }
      BegunNow(b, text, n, cp1, since, since');
      return Success(On(cp1, state2, lastState2, lastCp2)), skip', since';
  }

  /** A call of yylex is at its end. */
  ghost predicate Finished(lexer: Lexer, buf: Buffer, i: int, interactive: bool, since: int, text: seq<int>,
                           token: Token)
    reads buf, buf.chBuf
  {
    if token.Endless? then NoToken(lexer, i, interactive, since, text)
    else buf.Valid() && buf.Counted() && TokenIs(lexer, i, interactive, since, text, token, buf.Stream())
  }

  lemma FinishedToken(lexer: Lexer, buf: Buffer, i: int, interactive: bool, since: int, text: seq<int>, token: Token)
    requires !token.Endless? && buf.Valid() && buf.Counted()
    requires TokenIs(lexer, i, interactive, since, text, token, buf.Stream())
    ensures Finished(lexer, buf, i, interactive, since, text, token)
  {
    hide TokenIs, Buffer.Valid;
  }

  lemma FinishedNot(lexer: Lexer, buf: Buffer, i: int, interactive: bool, since: int, text: seq<int>)
    requires NoToken(lexer, i, interactive, since, text)
    ensures Finished(lexer, buf, i, interactive, since, text, Endless)
  {
    hide NoToken;
  }

  lemma FinishedIs(lexer: Lexer, buf: Buffer, i: int, interactive: bool, since: int, text: seq<int>, token: Token)
    requires Finished(lexer, buf, i, interactive, since, text, token)
    ensures !token.Endless? ==> buf.Valid() && buf.Counted()
                                && TokenIs(lexer, i, interactive, since, text, token, buf.Stream())
    ensures token.Endless? ==> NoToken(lexer, i, interactive, since, text)
  {
    hide TokenIs, NoToken, Buffer.Valid;
  }

  /** One call of yylex up to the action of a rule, or to the end of the input: the token is the longest match of the
      stream, and the rest of the stream stays. With a table for NUL a match in front of a NUL can be forgotten; whether
      it is depends on where the buffer has been filled last. */
  method NextToken(lexer: Lexer, buf: Buffer, i: int, interactive: bool) returns (r: Result<Token>, ghost since: int)
    requires lexer.Valid() && 1 <= i < |lexer.b.starts| && HasDefault(lexer.b, i)
    requires buf.Valid() && buf.Counted() && IsText(lexer.b, buf.Stream())
    modifies buf, buf.chBuf
    ensures r.Failure? ==> r.error == BufferOverflow && !old(buf.ours) && old(buf.fill)
    ensures r.Success? ==> buf.chBuf == old(buf.chBuf) || fresh(buf.chBuf)
    ensures r.Success? ==> buf.ours == old(buf.ours) && buf.fill == old(buf.fill)
    ensures r.Success? ==> FilledAt(since, old(buf.Stream()), |old(buf.Unread())|, |buf.Unread()|)
    ensures r.Success? && !r.value.Endless?
            ==> buf.Valid() && buf.Counted()
                && TokenIs(lexer, i, interactive, since, old(buf.Stream()), r.value, buf.Stream())
    ensures r.Success? && r.value.Endless? ==> NoToken(lexer, i, interactive, since, old(buf.Stream()))
  {
    hide *;
    ghost var b, text, unread := lexer.b, buf.Stream(), |buf.Unread()|;
    BeginToken(buf, b);
    var cp, state, lastState, lastCp := 0, i, 0, 0;
    ghost var skip := -1;
    since := 0;
    ValidSides(lexer);
    MatchStart(b, lexer.t, i, text, lastState, lastCp);
    ResumesAre(lexer, i, text, cp, skip, state, lastState, lastCp);
    BegunNone(b, text);
    FilledNone(text, unread);
    TextOf(buf, b, text);
    ViewWindow(buf, b, text);
    while true
      invariant InToken(buf, b, text) && (buf.chBuf == old(buf.chBuf) || fresh(buf.chBuf))
      invariant buf.ours == old(buf.ours) && buf.fill == old(buf.fill)
      invariant 0 <= cp <= buf.nChars - buf.textPtr <= |text|
      invariant Resumes(lexer, i, text, cp, skip, state, lastState, lastCp)
      invariant BegunAt(b, text, cp, skip, since) && FilledAt(since, text, unread, |buf.Unread()|)
      decreases |text| - cp, |buf.Unread()|
    {
      var round;
      round, skip, since := OneRound(lexer, buf, i, interactive, cp, state, lastState, lastCp, skip, since, unread,
          text);
      if round.Failure? { return Failure(round.error), since; }
      match round.value
      case Done(token) =>
        FinishedIs(lexer, buf, i, interactive, since, text, token);
        return Success(token), since;
      case On(cp1, state1, lastState1, lastCp1) =>
        cp, state, lastState, lastCp := cp1, state1, lastState1, lastCp1;
    }
  }

  lemma FilledNone(text: seq<int>, unread: nat)
    ensures FilledAt(0, text, unread, unread)
  {}

  lemma FilledStays(since: int, text: seq<int>, unread: int, before: int, now: int)
    requires FilledAt(since, text, unread, before) && now == before
    ensures FilledAt(since, text, unread, now)
  {}

  lemma FilledNow(n: int, since: int, text: seq<int>, unread: int, before: int, now: int)
    requires FilledAt(since, text, unread, before) && 0 <= n && 0 <= now < before == |text| - n
    ensures FilledAt(n, text, unread, now)
  {}

  lemma BegunNone(b: Build, text: seq<int>)
    ensures BegunAt(b, text, 0, -1, 0)
  {}

  lemma BegunFacts(b: Build, text: seq<int>, cp: int, skip: int, since: int)
    requires BegunAt(b, text, cp, skip, since)
    ensures skip == -1 || (b.useNul && skip == cp - 1 && 0 <= skip < |text| && text[skip] == 0)
    ensures 0 <= since <= cp && (skip != -1 ==> since <= skip)
  {}

  lemma BegunNow(b: Build, text: seq<int>, n: int, cp: int, since: int, since': int)
    requires 0 <= since <= n <= cp <= n + 1 && cp <= |text| && (cp == n + 1 ==> n < |text| && text[n] == 0)
    requires since' == if cp == n then n else since
    ensures BegunAt(b, text, cp, SkipAt(b, n, cp), since')
  {}

  lemma NulFree(b: Build, text: seq<int>, buf: seq<int>, lo: int, hi: int)
    requires Window(b, text, buf) && 0 <= lo <= hi < |buf| && forall k :: lo <= k < hi ==> buf[k] != 0
    ensures NoNul(text, lo, hi)
  {
    forall k | lo <= k < hi && k < |text| ensures text[k] != 0 {
      assert buf[k] != 0;
    }
  }

  lemma ButRange(b: Build, i: int, text: seq<int>, skip: int, act: int, len: int)
    requires LongestBut(b, i, text, skip, act, len)
    ensures 0 <= len <= |text|
  {}

  /** A token of the stream, and what is left of it. */
  ghost predicate TokenIs(lexer: Lexer, i: int, interactive: bool, since: int, text: seq<int>, token: Token,
                          rest: seq<int>) {
    match token
    case Eof => text == [] && rest == []
    case Token(act, yytext) =>
      text != [] && text == yytext + rest && Right(lexer, i, interactive, since, text, act, |yytext|)
    case Endless => false
  }

  /** No token is found: there is a table for NUL, and the only match, the first character, stands in front of a NUL. */
  ghost predicate NoToken(lexer: Lexer, i: int, interactive: bool, since: int, text: seq<int>) {
    && lexer.b.useNul && |text| > 1 && text[1] == 0 && OnlyAt(lexer.b, i, text, 1)
    && Forgets(lexer.b, lexer.t, i, text, since, interactive)
  }

  lemma Hanging(lexer: Lexer, i: int, interactive: bool, since: int, text: seq<int>, m: int)
    requires HasDefault(lexer.b, i) && lexer.b.useNul && IsText(lexer.b, text) && |text| > 1 && text[1] == 0
    requires OnlyAt(lexer.b, i, text, 1)
    requires Stops(lexer.b, lexer.t, i, text, 2, m, interactive)
             || (!interactive && m == 1 && StateAt(lexer.b, i, text, 2) == 0)
    requires since <= 1
    ensures NoToken(lexer, i, interactive, since, text)
  {
    hide HasDefault, FirstRule, Stops, StateAt;
    OnlyForgets(lexer.b, lexer.t, i, text, since, m, interactive);
  }

  lemma EofToken(lexer: Lexer, i: int, interactive: bool, since: int)
    ensures TokenIs(lexer, i, interactive, since, [], Eof, [])
  {}

  lemma FoundToken(lexer: Lexer, i: int, interactive: bool, since: int, text: seq<int>, act: int, yytext: seq<int>,
                   rest: seq<int>)
    requires text != [] && Right(lexer, i, interactive, since, text, act, |yytext|)
    requires |yytext| <= |text| && yytext == text[..|yytext|] && rest == text[|yytext|..]
    ensures TokenIs(lexer, i, interactive, since, text, Token(act, yytext), rest)
  {
    hide Right;
  }

  lemma ValidSides(lexer: Lexer)
    requires lexer.Valid()
    ensures NfaSide(lexer.b) && DfaSide(lexer.b) && TableSide(lexer.b, lexer.t, lexer.yyEc)
    ensures lexer.numRules == |lexer.b.rules|
  {
    hide NfaSide, DfaSide, TableSide;
  }

  lemma TextOf(buf: Buffer, b: Build, text: seq<int>)
    requires InToken(buf, b, text)
    ensures IsText(b, text) && Holds(buf, text)
  {}

  lemma StepMeans(lexer: Lexer, buf: Buffer, i: int, interactive: bool, n: int, step: Step, text: seq<int>)
    requires StepOk(lexer, buf, i, interactive, n, step, text)
    ensures step.AtEof? ==> text == []
    ensures step.Found? ==> text != [] && FoundAt(lexer, i, interactive, n, text, step.act, step.len)
                            && 0 <= step.len <= buf.nChars - buf.textPtr
    ensures step.Again? ==> lexer.b.useNul && !interactive && n == 1 < |text| && text[1] == 0
                            && OnlyAt(lexer.b, i, text, 1) && IsText(lexer.b, text)
                            && StateAt(lexer.b, i, text, 2) == 0
    ensures step.Resume?
            ==> Resumes(lexer, i, text, step.cp, SkipAt(lexer.b, n, step.cp), step.state, step.lastState, step.lastCp)
                && n <= step.cp <= n + 1 && 0 <= step.cp <= buf.nChars - buf.textPtr <= |text|
                && (step.cp == n + 1 ==> 0 <= n < |text| && text[n] == 0)
    ensures lexer.b.useNul && step.Resume? && step.cp == n + 1 ==> SkipAt(lexer.b, n, step.cp) == n
  {
    hide Resumes, FoundAt, OnlyAt, StateAt;
  }

  // ----- rules with $

  /** What finish_rule adds to the action of a rule whose trailing context has n characters: they go back to the
      input. */
  method TakeBack(buf: Buffer, n: nat)
    requires buf.Valid() && buf.Counted() && buf.textPtr + n <= buf.cBufP
    modifies buf`cBufP, buf`holdChar, buf.chBuf
    ensures buf.Valid() && buf.Counted() && buf.cBufP == old(buf.cBufP) - n
    ensures var yytext := old(buf.chBuf[buf.textPtr..buf.cBufP]); var k := |yytext| - n;
            buf.chBuf[buf.textPtr..buf.cBufP] == yytext[..k] && buf.Stream() == yytext[k..] + old(buf.Stream())
  {
    hide *;
    ghost var stream := buf.Stream();
    ghost var text := Undo(buf);
    Back(buf.chBuf[..], buf.textPtr, buf.cBufP, n, buf.nChars, buf.Unread(), text, stream);
    BeforeAction(buf, buf.cBufP - buf.textPtr - n, text);
  }

  /** The first of these actions: the effects of setting up yytext are undone. */
  method Undo(buf: Buffer) returns (ghost text: seq<int>)
    requires buf.Valid() && buf.Counted() && buf.textPtr <= buf.cBufP
    modifies buf.chBuf
    ensures Holds(buf, text) && buf.textPtr <= buf.cBufP <= buf.nChars < buf.chBuf.Length
    ensures text == buf.chBuf[buf.textPtr..buf.nChars] + buf.Unread()
            && old(buf.Stream()) == buf.chBuf[buf.cBufP..buf.nChars] + buf.Unread()
    ensures buf.chBuf[buf.textPtr..buf.cBufP] == old(buf.chBuf[buf.textPtr..buf.cBufP])
  {
    hide Flatten, Buffer.Stream, Buffer.Unread;
    var _ := buf.Restore();
    text := buf.Pending() + buf.Unread();
  }

  lemma Back(now: seq<int>, p: nat, cp: nat, n: nat, end: nat, unread: seq<int>, text: seq<int>, stream: seq<int>)
    requires p + n <= cp <= end < |now| && text == now[p..end] + unread && stream == now[cp..end] + unread
    ensures cp - p - n <= |text| && text[..cp - p - n] == now[p..cp][..cp - p - n]
            && text[cp - p - n..] == now[p..cp][cp - p - n..] + stream
  {
    assert now[p..end] == now[p..cp] + now[cp..end];
  }

  /** A token of a rule with $ is a word of its expression and a newline. */
  lemma EolMeans(rule: Rule, w: seq<int>, csize: int)
    requires rule.eol && w in Denotes(Pattern(rule), csize)
    ensures w != [] && w[|w| - 1] == 10 && w[..|w| - 1] in Denotes(rule.re, csize)
  {
    var u, v :| u in Denotes(rule.re, csize) && v in Denotes(Str([10]), csize) && w == u + v;
    assert v == [10];
    assert w[..|w| - 1] == u;
  }

  // ----- the whole input

  /** The tokens of a text: each is the longest match of what is left. */
  ghost predicate Tokens(b: Build, i: int, text: seq<int>, out: seq<Token>)
    decreases |out|
  {
    if out == [] then
      text == []
    else
      && out[0].Token? && text != [] && |out[0].text| <= |text| && out[0].text == text[..|out[0].text|]
      && Longest(b, i, text, out[0].act, |out[0].text|) && Tokens(b, i, text[|out[0].text|..], out[1..])
  }

  /** The tokens depend on the text only, and put together they are the text. */
  lemma {:induction false} OneTokens(b: Build, i: int, text: seq<int>, out: seq<Token>, out': seq<Token>)
    requires Tokens(b, i, text, out) && Tokens(b, i, text, out')
    ensures out == out' && Joined(out) == text
    decreases |out|
  {
    hide Longest;
    if out != [] {
      OneLongest(b, i, text, out[0].act, |out[0].text|, out'[0].act, |out'[0].text|);
      OneTokens(b, i, text[|out[0].text|..], out[1..], out'[1..]);
      assert out == [out[0]] + out[1..] && out' == [out'[0]] + out'[1..];
    }
  }

  /** The tokens of calls of yylex one after the other: each is right for some place where the buffer has been filled.
      They go to the end of the text, unless a call does not come back, or matches nothing. */
  ghost predicate Called(lexer: Lexer, i: int, interactive: bool, text: seq<int>, out: seq<Token>)
    decreases |out|
  {
    if out == [] then text == []
    else
      match out[0]
      case Eof => false
      case Endless => |out| == 1 && exists since :: NoToken(lexer, i, interactive, since, text)
      case Token(act, w) =>
        && text != [] && |w| <= |text| && w == text[..|w|]
        && (exists since :: Right(lexer, i, interactive, since, text, act, |w|))
        && if w == [] then |out| == 1 else Called(lexer, i, interactive, text[|w|..], out[1..])
  }

  lemma CalledOnce(lexer: Lexer, i: int, interactive: bool, since: int, text: seq<int>, token: Token)
    requires if token.Endless? then NoToken(lexer, i, interactive, since, text)
             else token.Token? && token.text == [] && TokenIs(lexer, i, interactive, since, text, token, text)
    ensures Called(lexer, i, interactive, text, [token])
  {
    hide NoToken, Right;
  }

  lemma CalledMore(lexer: Lexer, i: int, interactive: bool, since: int, text: seq<int>, token: Token, left: seq<int>,
                   rest: seq<Token>)
    requires token.Token? && token.text != [] && TokenIs(lexer, i, interactive, since, text, token, left)
    requires Called(lexer, i, interactive, left, rest)
    ensures Called(lexer, i, interactive, text, [token] + rest)
  {
    hide Right;
    assert ([token] + rest)[1..] == rest && text[|token.text|..] == left;
  }

  ghost function Joined(out: seq<Token>): seq<int> {
    if out == [] then [] else (if out[0].Token? then out[0].text else []) + Joined(out[1..])
  }

  /** Nothing can be forgotten: there is no table for NUL, or no NUL in the text. */
  ghost predicate Plain(b: Build, text: seq<int>) {
    b.useNul ==> 0 !in text
  }

  lemma RightPlain(lexer: Lexer, i: int, interactive: bool, since: int, text: seq<int>, act: int, len: int)
    requires Right(lexer, i, interactive, since, text, act, len) && Plain(lexer.b, text)
    ensures Longest(lexer.b, i, text, act, len)
  {
    hide Longest, Cut;
    if lexer.b.useNul {
      forall n ensures !Cut(lexer.b, i, text, n, act, len) {
        if Cut(lexer.b, i, text, n, act, len) { CutRange(lexer.b, i, text, n, act, len); }
      }
    }
  }

  lemma EofTokens(lexer: Lexer, i: int, interactive: bool, since: int, text: seq<int>, rest: seq<int>)
    requires TokenIs(lexer, i, interactive, since, text, Eof, rest)
    ensures Tokens(lexer.b, i, text, []) && Joined([]) <= text && Called(lexer, i, interactive, text, [])
  {}

  lemma EndlessTokens(lexer: Lexer, i: int, interactive: bool, since: int, text: seq<int>)
    requires NoToken(lexer, i, interactive, since, text)
    ensures !Plain(lexer.b, text) && Joined([Endless]) <= text
  {
    hide OnlyAt, Forgets;
    assert Joined([Endless]) == Joined([Endless][1..]) == [];
  }

  /** What a token leaves of the text. */
  lemma TokenLeft(lexer: Lexer, i: int, interactive: bool, since: int, text: seq<int>, token: Token, rest: seq<int>)
    requires HasDefault(lexer.b, i) && IsText(lexer.b, text)
    requires token.Token? && TokenIs(lexer, i, interactive, since, text, token, rest)
    ensures text == token.text + rest && IsText(lexer.b, rest) && (Plain(lexer.b, text) ==> Plain(lexer.b, rest))
    ensures Plain(lexer.b, text) ==> token.text != [] && Longest(lexer.b, i, text, token.act, |token.text|)
  {
    hide HasDefault, Longest, Right;
    var len := |token.text|;
    forall k | 0 <= k < |rest| ensures rest[k] == text[len + k] && rest[k] in text {}
    if Plain(lexer.b, text) {
      RightPlain(lexer, i, interactive, since, text, token.act, |token.text|);
      LongestSome(lexer.b, i, text, token.act, |token.text|);
    }
  }

  lemma EmptyToken(b: Build, i: int, text: seq<int>, token: Token)
    requires token.Token? && token.text == []
    ensures Joined([token]) <= text
  {
    assert Joined([token]) == Joined([token][1..]) == [];
  }

  lemma MoreTokens(b: Build, i: int, text: seq<int>, token: Token, left: seq<int>, rest: seq<Token>)
    requires token.Token? && token.text != [] && text == token.text + left && Joined(rest) <= left
    ensures Joined([token] + rest) <= text
    ensures Longest(b, i, text, token.act, |token.text|) && Tokens(b, i, left, rest)
            ==> Tokens(b, i, text, [token] + rest)
  {
    hide Longest;
    assert ([token] + rest)[1..] == rest && text[|token.text|..] == left;
  }

  /** Calls of yylex up to the end of the input, with actions that do nothing else. Neither the size of the buffer, nor
      the chunks in which the input is read, nor the mode of the scanner make a difference to the tokens, unless a NUL
      in the text meets a table for NUL. Then the last call may not come back, or have matched nothing, as every further
      one would. */
  method ScanAll(lexer: Lexer, buf: Buffer, i: int, interactive: bool) returns (r: Result<seq<Token>>)
    requires lexer.Valid() && 1 <= i < |lexer.b.starts| && HasDefault(lexer.b, i)
    requires buf.Valid() && buf.Counted() && IsText(lexer.b, buf.Stream())
    modifies buf, buf.chBuf
    ensures r.Failure? ==> r.error == BufferOverflow && !old(buf.ours) && old(buf.fill)
    ensures r.Success? && Plain(lexer.b, old(buf.Stream())) ==> Tokens(lexer.b, i, old(buf.Stream()), r.value)
    ensures r.Success? ==> Joined(r.value) <= old(buf.Stream())
    ensures r.Success? ==> Called(lexer, i, interactive, old(buf.Stream()), r.value)
    decreases |buf.Stream()|
  {
    hide *;
    ghost var text := buf.Stream();
    var first;
    ghost var since;
    first, since := NextToken(lexer, buf, i, interactive);
    if first.Failure? { return Failure(first.error); }
    var token := first.value;
    if token.Eof? {
      EofTokens(lexer, i, interactive, since, text, buf.Stream());
      return Success([]);
    }
    if token.Endless? {
      EndlessTokens(lexer, i, interactive, since, text);
      CalledOnce(lexer, i, interactive, since, text, token);
      return Success([Endless]);
    }
    ghost var left := buf.Stream();
    TokenLeft(lexer, i, interactive, since, text, token, left);
    if token.text == [] {
      EmptyToken(lexer.b, i, text, token);
      assert text == left;
      CalledOnce(lexer, i, interactive, since, text, token);
      return Success([token]);
    }
    var rest := ScanAll(lexer, buf, i, interactive);
    if rest.Failure? { return Failure(rest.error); }
    MoreTokens(lexer.b, i, text, token, left, rest.value);
    CalledMore(lexer, i, interactive, since, text, token, left, rest.value);
    return Success([token] + rest.value);
  }
}
