/** The input buffer of a generated scanner (skel.c: yy_get_next_buffer, yyunput, input, yy_flush_buffer, yyrestart).
    Whatever the reads bring, the characters behind the current position and those still to be read are the same
    stream. */
module InputBuffer {
  import opened Results

  const YY_READ_BUF_SIZE := 8192
  const YY_END_OF_BUFFER_CHAR := 0

  datatype Option<T> = None | Some(value: T)

  datatype Status = New | Normal | EofPending

  datatype EobAct = ContinueScan | EndOfFile | LastMatch

  /** What the reads to come will bring: each chunk is the most that one read returns. */
  type Chunks = s: seq<seq<int>> | forall k :: 0 <= k < |s| ==> s[k] != []

  ghost function Flatten(chunks: seq<seq<int>>): seq<int> {
    if chunks == [] then [] else chunks[0] + Flatten(chunks[1..])
  }

  /** One read of at most max characters. Nothing is read only at the end of the file. */
  function Read(chunks: Chunks, max: nat): (r: (seq<int>, Chunks))
    requires max > 0
    ensures |r.0| <= max && (r.0 == [] <==> chunks == [])
  {
    if chunks == [] then ([], [])
    else if |chunks[0]| <= max then (chunks[0], chunks[1..])
    else (chunks[0][..max], [chunks[0][max..]] + chunks[1..])
  }

  /** A chunk of a single character is taken as a whole. */
  ghost predicate OneRead(before: Chunks, after: Chunks) {
    before != [] && |before[0]| == 1 ==> after == before[1..]
  }

  lemma ReadKeeps(chunks: Chunks, max: nat)
    requires max > 0
    ensures Flatten(chunks) == Read(chunks, max).0 + Flatten(Read(chunks, max).1)
            && OneRead(chunks, Read(chunks, max).1)
  {
    if chunks != [] && |chunks[0]| > max {
      var rest := [chunks[0][max..]] + chunks[1..];
      assert rest[1..] == chunks[1..];
      assert chunks[0] == chunks[0][..max] + chunks[0][max..];
    }
  }

  /** A number as an int of 32 bits, wrapping around. */
  function AsInt(n: int): (i: int)
    ensures -0x8000_0000 <= i < 0x8000_0000 && (i - n) % 0x1_0000_0000 == 0
  {
    var r := n % 0x1_0000_0000;
    if r < 0x8000_0000 then r else r - 0x1_0000_0000
  }

  class Buffer {
    var chBuf: array<int>
    var bufSize: nat
    var bufChars: nat       // yy_n_chars of the buffer
    var nChars: nat         // yy_n_chars
    var cBufP: nat          // yy_c_buf_p
    var textPtr: nat        // yytext_ptr
    var holdChar: int
    var status: Status
    var ours: bool          // yy_is_our_buffer
    var fill: bool          // yy_fill_buffer
    var input: Chunks

    ghost predicate Shape()
      reads this
    {
      && (ours ==> bufSize >= 1) && chBuf.Length == bufSize + 2 && nChars <= bufSize && textPtr <= nChars
      && (status == EofPending ==> input == [])
    }

    /** A new buffer knows how many characters it has. */
    ghost predicate Counted()
      reads this
    {
      status == New ==> bufChars == nChars
    }

    /** Two characters 0 mark the end of the buffer. */
    ghost predicate Ended()
      reads this, chBuf
    {
      nChars + 1 < chBuf.Length && chBuf[nChars] == 0 == chBuf[nChars + 1]
    }

    /** Between two tokens: the character under yy_c_buf_p is in yy_hold_char. */
    ghost predicate Valid()
      reads this, chBuf
    {
      && Shape() && cBufP <= nChars
      && (cBufP == nChars ==> holdChar == 0) && (cBufP < nChars ==> chBuf[nChars] == 0) && chBuf[nChars + 1] == 0
    }

    /** input has come to the end of a buffer that is not filled: yy_c_buf_p is one too far. */
    ghost predicate Past()
      reads this, chBuf
    {
      Shape() && !fill && cBufP == nChars + 1 && textPtr == nChars && holdChar == 0 && Ended()
    }

    /** What is still to be read. */
    ghost function Unread(): seq<int>
      reads this
    {
      if fill then Flatten(input) else []
    }

    /** The text that has been matched, up to the end of the buffer. */
    ghost function Pending(): seq<int>
      reads this, chBuf
      requires Shape()
    {
      chBuf[textPtr..nChars]
    }

    /** The characters that the scanner has not matched yet. */
    ghost function Stream(): seq<int>
      reads this, chBuf
      requires Valid()
    {
      (if cBufP < nChars then [holdChar] + chBuf[cBufP + 1..nChars] else []) + Unread()
    }

    /** yy_create_buffer followed by yy_load_buffer_state. */
    constructor (size: nat, chunks: Chunks)
      requires size >= 1
      ensures Valid() && Counted() && fresh(chBuf) && Stream() == Flatten(chunks) && ours && fill
      ensures textPtr == cBufP == nChars == 0 && status == New && input == chunks
    {
      bufSize, bufChars, nChars, cBufP, textPtr := size, 0, 0, 0, 0;
      chBuf := new int[size + 2](_ => 0);
      holdChar, status, ours, fill, input := 0, New, true, true, chunks;
    }

    /** yy_scan_buffer: a buffer in memory, which must end in two characters 0. */
    constructor ScanBuffer(base: array<int>, chunks: Chunks)
      requires base.Length >= 2 && base[base.Length - 2] == 0 == base[base.Length - 1]
      ensures Valid() && Counted() && chBuf == base && Stream() == base[..base.Length - 2] && !ours && !fill
    {
      chBuf, bufSize, bufChars, nChars, cBufP, textPtr := base, base.Length - 2, base.Length - 2, base.Length - 2, 0, 0;
      holdChar, status, ours, fill, input := base[0], New, false, false, chunks;
    }

    /** yy_init_buffer, yy_flush_buffer and yy_load_buffer_state, as yyrestart calls them. */
    method Restart()
      requires (ours ==> bufSize >= 1) && chBuf.Length == bufSize + 2
      modifies this`status, this`bufChars, this`nChars, this`cBufP, this`textPtr, this`holdChar, this`fill, chBuf
      ensures Valid() && Counted() && cBufP == textPtr == nChars == 0 && Ended() && fill && input == old(input)
              && Stream() == Flatten(input)
      ensures chBuf == old(chBuf) && bufSize == old(bufSize) && ours == old(ours)
    {
      bufChars := 0;
      chBuf[0], chBuf[1] := YY_END_OF_BUFFER_CHAR, YY_END_OF_BUFFER_CHAR;
      status := New;
      nChars, cBufP, textPtr := 0, 0, 0;
      holdChar := chBuf[0];
      fill := true;
    }

    /** The first loop of yy_get_next_buffer. */
    method MoveText(n: nat)
      requires textPtr + n <= chBuf.Length
      modifies chBuf
      ensures chBuf[..n] == old(chBuf[textPtr..textPtr + n])
      ensures forall k :: n <= k < chBuf.Length ==> chBuf[k] == old(chBuf[k])
    {
      var i := 0;
      while i < n
        invariant 0 <= i <= n
        invariant forall k :: 0 <= k < i ==> chBuf[k] == old(chBuf[textPtr + k])
        invariant forall k :: i <= k < chBuf.Length ==> chBuf[k] == old(chBuf[k])
      {
        chBuf[i] := chBuf[textPtr + i];
        i := i + 1;
      }
    }

    /** Not enough room in the buffer: it is made larger, unless it is not the scanner's own. */
    method Grow(moved: nat) returns (r: Result<nat>)
      requires (ours ==> bufSize >= 1) && chBuf.Length == bufSize + 2 && moved <= chBuf.Length
      modifies this`bufSize, this`chBuf
      ensures (ours ==> bufSize >= 1) && chBuf.Length == bufSize + 2 >= old(chBuf.Length)
              && (chBuf == old(chBuf) || fresh(chBuf))
      ensures moved <= chBuf.Length && chBuf[..moved] == old(chBuf[..moved])
      ensures r.Failure? <==> !ours && old(bufSize) <= moved + 1
      ensures r.Failure? ==> r.error == BufferOverflow
      ensures r.Success? ==> r.value == bufSize - moved - 1 > 0
    {
      while bufSize <= moved + 1
        invariant (ours ==> bufSize >= 1) && chBuf.Length == bufSize + 2 >= old(chBuf.Length)
                  && (chBuf == old(chBuf) || fresh(chBuf))
        invariant moved <= chBuf.Length && chBuf[..moved] == old(chBuf[..moved]) && (ours || bufSize == old(bufSize))
        decreases moved + 2 - bufSize
      {
        if !ours { return Failure(BufferOverflow); }
        Enlarge();
      }
      return Success(bufSize - moved - 1);
    }

    /** yy_flex_realloc of the buffer: twice as large, or an eighth larger where twice the size is no positive int. */
    method Enlarge()
      requires bufSize >= 1 && chBuf.Length == bufSize + 2
      modifies this`bufSize, this`chBuf
      ensures bufSize == (if AsInt(2 * old(bufSize)) <= 0 then old(bufSize) + old(bufSize) / 8 else 2 * old(bufSize))
      ensures bufSize > old(bufSize) && chBuf.Length == bufSize + 2 && fresh(chBuf)
              && chBuf[..old(chBuf.Length)] == old(chBuf[..])
    {
      var newSize := AsInt(bufSize * 2);
      if newSize <= 0 {
        bufSize := bufSize + bufSize / 8;
      } else {
        bufSize := bufSize * 2;
      }
      var larger := new int[bufSize + 2](_ => 0);
      var k := 0;
      while k < chBuf.Length
        invariant 0 <= k <= chBuf.Length < larger.Length && larger[..k] == chBuf[..k]
        modifies larger
      {
        larger[k] := chBuf[k];
        k := k + 1;
      }
      assert larger[..chBuf.Length] == chBuf[..chBuf.Length] == chBuf[..];
      chBuf := larger;
    }

    /** YY_INPUT behind the characters that have been moved. */
    method ReadInput(moved: nat, max: nat) returns (n: nat)
      requires max > 0 && moved + max <= chBuf.Length
      modifies this`input, chBuf
      ensures n <= max && chBuf[..moved] == old(chBuf[..moved]) && (n == 0 <==> old(input) == [])
      ensures old(Flatten(input)) == chBuf[moved..moved + n] + Flatten(input) && (old(input) == [] ==> input == [])
      ensures OneRead(old(input), input)
    {
      ReadKeeps(input, max);
      var (chars, rest) := Read(input, max);
      n := |chars|;
      var k := 0;
      while k < n
        invariant 0 <= k <= n && chBuf[..moved] == old(chBuf[..moved]) && chBuf[moved..moved + k] == chars[..k]
                  && input == old(input)
        modifies chBuf
      {
        chBuf[moved + k] := chars[k];
        k := k + 1;
      }
      input := rest;
      assert chars[..n] == chars;
    }

    /** What yy_get_next_buffer returns. */
    ghost function EndAct(): EobAct
      reads this, chBuf
      requires Shape()
    {
      if Unread() != [] then ContinueScan else if textPtr < nChars then LastMatch else EndOfFile
    }

    /** yy_get_next_buffer, behind the end of the buffer: what is pending moves to the front and more is read. What is
        pending together with what is unread stays the same. */
    method GetNextBuffer() returns (r: Result<EobAct>)
      requires nChars < cBufP && (cBufP == nChars + 1 ==> Shape() && Ended())
      modifies this, chBuf
      ensures old(cBufP) > old(nChars) + 1 ==> r == Failure(EndOfBufferMissed)
      ensures old(cBufP) == old(nChars) + 1 && r.Failure? ==>
                r.error == BufferOverflow && !old(ours) && old(fill) && old(status) != EofPending
                    && old(bufSize) <= |old(Pending())| + 1
      ensures r.Success? ==> r.value == old(EndAct()) && Shape() && Ended()
                             && Pending() + Unread() == old(Pending() + Unread())
      ensures r.Success? ==> (chBuf == old(chBuf) || fresh(chBuf)) && ours == old(ours) && fill == old(fill)
      ensures r.Success? && !fill ==> unchanged(this) && chBuf[..] == old(chBuf[..])
      ensures r.Success? && fill ==> textPtr == 0 && OneRead(old(input), input)
                                     && Filled(r.value, old(status), |old(Pending())|, |old(Unread())|)
    {
      hide Flatten, OneRead;
      if cBufP > nChars + 1 { return Failure(EndOfBufferMissed); }
      FlattenNone(input);
      if !fill {
        return Success(if cBufP - textPtr == 1 then EndOfFile else LastMatch);
      }
      r := FillBuffer();
    }

    /** A buffer after yy_get_next_buffer has filled it. */
    ghost predicate Filled(act: EobAct, status0: Status, pending: int, unread: int)
      reads this, chBuf
    {
      match act
      case ContinueScan => status == status0 && bufChars + pending == nChars && pending < nChars && |Unread()| < unread
      case EndOfFile => Valid() && Counted() && Stream() == [] && input == []
      case LastMatch => status == EofPending && nChars == pending
    }

    /** The part of yy_get_next_buffer for buffers that are filled. */
    method FillBuffer() returns (r: Result<EobAct>)
      requires Shape() && Ended() && nChars + 1 == cBufP && fill
      modifies this, chBuf
      ensures r.Failure? ==> r.error == BufferOverflow && !old(ours) && old(status) != EofPending
                             && old(bufSize) <= |old(Pending())| + 1
      ensures r.Success? ==> r.value == old(EndAct()) && Shape() && Ended()
                             && Pending() + Unread() == old(Pending() + Unread())
      ensures r.Success? ==> (chBuf == old(chBuf) || fresh(chBuf)) && ours == old(ours) && fill == old(fill)
      ensures r.Success? ==> textPtr == 0 && OneRead(old(input), input)
                             && Filled(r.value, old(status), |old(Pending())|, |old(Unread())|)
    {
      hide *;
      Facts();
      FlattenNone(input);
      ghost var pending, unread, status0 := Pending(), Unread(), status;
      var moved := cBufP - textPtr - 1;
      MoveText(moved);
      var refilled := Refill(moved, pending);
      if refilled.Failure? { return Failure(refilled.error); }
      var act := Conclude(refilled.value, moved, pending, unread);
      return Success(act);
    }

    /** The last part of yy_get_next_buffer, when more characters have been read behind those moved. */
    method Conclude(more: nat, moved: nat, ghost pending: seq<int>, ghost unread: seq<int>) returns (act: EobAct)
      requires (ours ==> bufSize >= 1) && chBuf.Length == bufSize + 2 && moved + more <= bufSize
               && bufChars == more && moved == |pending| && fill
      requires chBuf[..moved + more] + Flatten(input) == pending + unread && (more == 0 <==> unread == [])
               && (unread == [] ==> input == [])
      requires status == EofPending ==> input == []
      modifies this`status, this`bufChars, this`nChars, this`cBufP, this`textPtr, this`holdChar, this`fill, chBuf
      ensures act == if unread != [] then ContinueScan else if pending != [] then LastMatch else EndOfFile
      ensures Shape() && Ended() && Pending() + Unread() == pending + unread && textPtr == 0 && fill
      ensures Filled(act, old(status), |pending|, |unread|)
    {
      hide *;
      ghost var status0 := status;
      FlattenNone(input);
      Lengths(chBuf[..moved + more], Flatten(input), pending, unread);
      if more == 0 && moved == 0 {
        Restart();
        NowEmpty(status0);
        return EndOfFile;
      }
      if more == 0 { status := EofPending; }
      Finish(more + moved);
      act := if more == 0 then LastMatch else ContinueScan;
      NowFilled(act, status0, |pending|, |unread|);
    }

    lemma Facts()
      requires Shape() && Ended()
      ensures textPtr <= nChars <= bufSize && chBuf.Length == bufSize + 2 && (ours ==> bufSize >= 1)
              && (status == EofPending ==> input == [])
      ensures Pending() == chBuf[textPtr..nChars] && (fill ==> Unread() == Flatten(input)) && (!fill ==> Unread() == [])
      ensures EndAct() == if Unread() != [] then ContinueScan else if textPtr < nChars then LastMatch else EndOfFile
    {}

    lemma NowEmpty(status0: Status)
      requires Valid() && Counted() && cBufP == textPtr == nChars == 0 && Ended() && fill && input == []
               && Stream() == Flatten(input)
      ensures Shape() && Pending() + Unread() == [] && Filled(EndOfFile, status0, 0, 0)
    {}

    lemma NowFilled(act: EobAct, status0: Status, pending: int, unread: int)
      requires Shape() && Ended() && fill && 0 <= pending <= nChars && textPtr == 0 && act != EndOfFile
               && nChars + |Flatten(input)| == pending + unread
      requires if act == ContinueScan then status == status0 && bufChars + pending == nChars && pending < nChars
               else status == EofPending && nChars == pending
      ensures Filled(act, status0, pending, unread) && Pending() + Unread() == chBuf[..nChars] + Flatten(input)
    {
      hide Flatten;
    }

    /** The text starts at the front of the buffer, with n characters. */
    method Finish(n: nat)
      requires (ours ==> bufSize >= 1) && chBuf.Length == bufSize + 2 && n <= bufSize
               && (status == EofPending ==> input == [])
      modifies this`nChars, this`textPtr, chBuf
      ensures Shape() && Ended() && textPtr == 0 && nChars == n && Pending() == chBuf[..n] == old(chBuf[..n])
    {
      nChars := n;
      EndBuffer();
      textPtr := 0;
    }

    /** The reading part of yy_get_next_buffer: the room for the characters is made and they are read. */
    method Refill(moved: nat, ghost pending: seq<int>) returns (r: Result<nat>)
      requires (ours ==> bufSize >= 1) && chBuf.Length == bufSize + 2 && moved <= bufSize && chBuf[..moved] == pending
      requires status == EofPending ==> input == []
      modifies this`bufSize, this`chBuf, this`bufChars, this`nChars, this`input, chBuf
      ensures r.Failure? ==> r.error == BufferOverflow && !ours && status != EofPending && old(bufSize) <= moved + 1
      ensures r.Success? ==> (ours ==> bufSize >= 1) && chBuf.Length == bufSize + 2 && moved + r.value <= bufSize
                             && bufChars == nChars == r.value
      ensures r.Success? ==> chBuf[..moved + r.value] + Flatten(input) == pending + old(Flatten(input))
                             && (r.value == 0 <==> old(input) == [])
      ensures r.Success? ==> (old(input) == [] ==> input == []) && OneRead(old(input), input)
                             && (chBuf == old(chBuf) || fresh(chBuf))
    {
      hide Flatten;
      if status == EofPending {
        bufChars, nChars := 0, 0;
        return Success(0);
      }
      ghost var unread := Flatten(input);
      var room :- Grow(moved);
      var toRead := if room > YY_READ_BUF_SIZE then YY_READ_BUF_SIZE else room;
      nChars := ReadInput(moved, toRead);
      bufChars := nChars;
      Joined(chBuf[..], moved, nChars, pending, unread, Flatten(input));
      return Success(nChars);
    }

    /** The two characters 0 behind the text. */
    method EndBuffer()
      requires nChars + 2 <= chBuf.Length
      modifies chBuf
      ensures chBuf[..nChars] == old(chBuf[..nChars]) && Ended()
    {
      chBuf[nChars] := YY_END_OF_BUFFER_CHAR;
      chBuf[nChars + 1] := YY_END_OF_BUFFER_CHAR;
    }

    /** The beginning of a token: the text starts at yy_c_buf_p. */
    method Begin()
      requires Valid() && Counted()
      modifies this`textPtr, chBuf
      ensures Shape() && Ended() && Counted() && Pending() + Unread() == old(Stream()) && Unread() == old(Unread())
    {
      hide *;
      ReadyIs();
      var cp := Restore();
      TextFrom(cp);
    }

    method TextFrom(cp: nat)
      requires Shape() && Ended() && Counted() && cp <= nChars
      modifies this`textPtr
      ensures Shape() && Ended() && Counted() && Pending() == chBuf[cp..nChars] && Unread() == old(Unread())
    {
      hide Flatten;
      textPtr := cp;
    }

    /** What the predicates say, for proofs that do not look into them. */
    lemma Meaning()
      ensures Shape() <==> (ours ==> bufSize >= 1) && chBuf.Length == bufSize + 2 && nChars <= bufSize
                           && textPtr <= nChars && (status == EofPending ==> input == [])
      ensures Ended() <==> nChars + 1 < chBuf.Length && chBuf[nChars] == 0 == chBuf[nChars + 1]
      ensures Counted() <==> (status == New ==> bufChars == nChars)
      ensures Unread() == if fill then Flatten(input) else []
      ensures Shape() ==> Pending() == chBuf[textPtr..nChars]
    {}

    /** yyunput with the text pointer, behind a token: c becomes the next character. */
    method Unput(c: int) returns (r: Result<()>)
      requires Valid()
      modifies this, chBuf
      ensures r.Failure? <==> old(cBufP) + (if old(cBufP) < 2 then old(bufSize) - old(nChars) else 0) < 2
      ensures r.Failure? ==> r.error == PushBackOverflow
      ensures r.Success? ==> Valid() && Stream() == [c] + old(Stream()) && chBuf == old(chBuf)
                             && fill == old(fill) && ours == old(ours)
      ensures r.Success? && old(Counted()) ==> Counted()
      ensures r.Success? ==> cBufP < nChars && cBufP - textPtr == old(cBufP - textPtr) - 1
      ensures old(cBufP) >= 2 ==> r.Success? && cBufP == old(cBufP) - 1 && nChars == old(nChars)
    {
      hide *;
      var settled := Settle();
      if settled.Failure? { return Failure(settled.error); }
      Push(settled.value, c);
      return Success(());
    }

    /** The first part of yyunput: there is room in front of the next character. */
    method Settle() returns (r: Result<nat>)
      requires Valid()
      modifies this`textPtr, this`bufChars, this`nChars, chBuf
      ensures r.Failure? <==> old(cBufP) + (if old(cBufP) < 2 then old(bufSize) - old(nChars) else 0) < 2
      ensures r.Failure? ==> r.error == PushBackOverflow
      ensures r.Success? ==> Shape() && Ended() && 2 <= r.value <= nChars
                             && chBuf[r.value..nChars] + Unread() == old(Stream())
      ensures r.Success? ==> r.value - textPtr == old(cBufP - textPtr)
      ensures old(cBufP) >= 2 ==> r.Success? && r.value == old(cBufP) && nChars == old(nChars)
      ensures old(Counted()) ==> Counted()
    {
      hide Flatten;
      var cp := Restore();
      if cp < 2 {
        cp := MakeRoom(cp);
        if cp < 2 { return Failure(PushBackOverflow); }
      }
      return Success(cp);
    }

    ghost function All(): seq<int>
      reads `chBuf, chBuf
    {
      chBuf[..]
    }

    lemma PartOf(lo: nat, hi: nat)
      requires lo <= hi <= chBuf.Length
      ensures |All()| == chBuf.Length && All()[lo..hi] == chBuf[lo..hi]
    {}

    /** Everything moves to the end of the buffer. */
    method MakeRoom(cp0: nat) returns (cp: nat)
      requires Shape() && Ended() && cp0 <= nChars
      modifies this`textPtr, this`bufChars, this`nChars, chBuf
      ensures Shape() && Ended() && Counted() && cp == cp0 + bufSize - old(nChars) <= nChars
      ensures cp - textPtr == cp0 - old(textPtr)
      ensures chBuf[cp..nChars] == old(chBuf[cp0..nChars])
    {
      hide *;
      ShapeIs();
      PartOf(cp0, nChars);
      ghost var before, n := All(), nChars;
      var shift := bufSize - nChars;
      ShiftUp(shift);
      ToEnd(shift);
      ShapeIs();
      cp := cp0 + shift;
      Shifted(All(), before, shift, n + 2, cp0, n);
      PartOf(cp, nChars);
    }

    lemma ShapeIs()
      requires Shape()
      ensures nChars <= bufSize && chBuf.Length == bufSize + 2
    {}

    method ToEnd(shift: nat)
      requires Shape() && shift == bufSize - nChars && chBuf[bufSize] == 0 == chBuf[bufSize + 1]
      modifies this`textPtr, this`bufChars, this`nChars
      ensures Shape() && Ended() && Counted() && nChars == bufSize && All() == old(All())
      ensures textPtr == old(textPtr) + shift
    {
      hide All;
      textPtr := textPtr + shift;
      bufChars, nChars := bufSize, bufSize;
    }

    /** The character goes in front of position cp. */
    method Push(cp: nat, c: int)
      requires Shape() && Ended() && 1 <= cp <= nChars
      modifies this`holdChar, this`cBufP, chBuf
      ensures Valid() && Stream() == [c] + (old(chBuf[cp..nChars]) + Unread()) && Unread() == old(Unread())
      ensures cBufP == cp - 1 && (old(Counted()) ==> Counted())
    {
      ghost var now := chBuf[..];
      chBuf[cp - 1] := c;
      holdChar := chBuf[cp - 1];
      cBufP := cp - 1;
      Stored(chBuf[..], now, cp - 1, c, nChars);
      assert chBuf[cp..nChars] == now[cp..nChars];
    }

    /** The effects of setting up yytext are undone. */
    method Restore() returns (cp: nat)
      requires Valid() || Past()
      modifies chBuf
      ensures cp == cBufP < chBuf.Length && Ended() && chBuf[cp] == holdChar
      ensures cp <= nChars ==> chBuf[cp..nChars] + Unread() == old(Stream())
                               && (cp == nChars ==> old(Stream()) == Unread())
      ensures forall k :: 0 <= k < chBuf.Length && k != cp ==> chBuf[k] == old(chBuf[k])
    {
      chBuf[cBufP] := holdChar;
      cp := cBufP;
    }

    /** input: the next character, or nothing at the end of the input. A buffer in memory is not filled again; at its
        end input gives up the buffer for yyin, or steps behind the end. */
    method Input() returns (r: Result<Option<int>>)
      requires Valid() || Past()
      modifies this, chBuf
      ensures r.Failure? ==> if old(Past()) then r.error == EndOfBufferMissed else
                             && r.error == BufferOverflow && !old(ours) && old(fill) && old(cBufP) == old(nChars)
                             && old(bufSize) <= old(cBufP) - old(textPtr) + 1
      ensures old(Past()) ==> r.Failure?
      ensures r.Success? ==> (r.value == None <==> old(Stream()) == [])
      ensures r.Success? && r.value.Some? ==> Valid() && old(Stream()) == [r.value.value] + Stream()
      ensures r.Success? && r.value.Some? && old(Counted()) ==>
                (Counted() <==> !(old(status) == New && old(cBufP) == old(nChars) && old(cBufP) != old(textPtr)))
                    && (!Counted() ==> bufChars < nChars)
      ensures r.Success? && r.value.Some? ==> status == old(status) && fill == old(fill)
                                              && cBufP - textPtr == old(cBufP) - old(textPtr) + 1
      ensures r.Success? && r.value.Some? ==> 1 <= cBufP <= chBuf.Length && chBuf[cBufP - 1] == 0
      ensures r.Success? && r.value.Some? ==> if old(cBufP) == old(nChars) then OneRead(old(input), input)
              else input == old(input)
      ensures r.Success? ==> (chBuf == old(chBuf) || fresh(chBuf)) && ours == old(ours)
      ensures r.Success? && r.value.None? ==>
                if old(fill) || old(cBufP) != old(textPtr) then Valid() && Counted() && fill
                    && Stream() == Flatten(old(input)) else Past()
    {
      hide *;
      ReadyIs();
      MarkIs();
      var _ := Restore();
      CountedIs();
      if chBuf[cBufP] == YY_END_OF_BUFFER_CHAR {
        if cBufP < nChars {
          KeepNul();
        } else {
          var more := MoreInput();
          if more.Failure? { return Failure(more.error); }
          if !more.value { return Success(None); }
          CountedIs();
        }
      }
      var c := TakeChar();
      CountedIs();
      return Success(Some(c));
    }

    lemma ReadyIs()
      requires Valid() || Past()
      ensures textPtr <= nChars && cBufP <= nChars + 1 && Shape() && (cBufP > nChars <==> Past())
              && (cBufP <= nChars ==> Valid())
      ensures Past() ==> !fill && textPtr == nChars && holdChar == 0
      ensures Valid() ==> cBufP <= nChars
      ensures Valid() ==> (cBufP < nChars ==> Stream() != []) && (cBufP == nChars ==> holdChar == 0)
    {}

    lemma MarkIs()
      ensures YY_END_OF_BUFFER_CHAR == 0
    {}

    lemma CountedIs()
      ensures Counted() <==> (status == New ==> bufChars == nChars)
    {}

    /** A NUL stays one. */
    method KeepNul()
      requires cBufP < nChars && Ended() && chBuf[cBufP] == 0
      modifies chBuf
      ensures Ended() && chBuf[cBufP..nChars] == old(chBuf[cBufP..nChars])
    {
      chBuf[cBufP] := 0;
    }

    /** input at the end of the buffer: whether there is a character to be taken now. */
    method MoreInput() returns (r: Result<bool>)
      requires Shape() && Ended() && holdChar == 0
               && (cBufP == nChars || (!fill && textPtr == nChars && cBufP == nChars + 1))
      modifies this, chBuf
      ensures r.Failure? ==> if old(cBufP) > old(nChars) then r.error == EndOfBufferMissed else
                             && r.error == BufferOverflow && !old(ours) && old(fill)
                             && old(bufSize) <= old(cBufP) - old(textPtr) + 1
      ensures old(cBufP) > old(nChars) ==> r.Failure?
      ensures r.Success? ==> (r.value <==> old(Unread()) != []) && (chBuf == old(chBuf) || fresh(chBuf))
                             && ours == old(ours)
      ensures r.Success? && r.value ==> Shape() && Ended() && cBufP < nChars
                                        && chBuf[cBufP..nChars] + Unread() == old(Unread())
      ensures r.Success? && r.value ==> old(fill) && OneRead(old(input), input)
                                        && cBufP - textPtr == old(cBufP) - old(textPtr)
      ensures r.Success? && r.value ==> status == old(status) && bufChars + (old(nChars) - old(textPtr)) == nChars
                                        && fill && ours == old(ours)
      ensures r.Success? && !r.value ==>
                if old(fill) || old(cBufP) != old(textPtr) then Valid() && Counted() && fill
                    && Stream() == Flatten(old(input)) else Past()
    {
      hide Flatten, OneRead;
      ghost var pending := Pending();
      var offset := cBufP - textPtr;
      cBufP := cBufP + 1;
      var act :- GetNextBuffer();
      FlattenNone(input);
      match act
      case LastMatch =>
        Restart();
        return Success(false);
      case EndOfFile =>
        return Success(false);
      case ContinueScan =>
        cBufP := textPtr + offset;
        Ahead(chBuf[..nChars], cBufP, pending, old(Unread()), Unread());
        return Success(true);
    }

    /** The end of input: the character under yy_c_buf_p, and one step ahead. */
    method TakeChar() returns (c: int)
      requires Shape() && Ended() && cBufP < nChars
      modifies this`holdChar, this`cBufP, chBuf
      ensures Valid() && cBufP == old(cBufP) + 1 && old(chBuf[cBufP..nChars] + Unread()) == [c] + Stream()
      ensures 1 <= cBufP <= chBuf.Length && chBuf[cBufP - 1] == 0
    {
      hide Flatten;
      ghost var now, unread := chBuf[..], Unread();
      c := chBuf[cBufP];
      chBuf[cBufP] := 0;
      cBufP := cBufP + 1;
      holdChar := chBuf[cBufP];
      OneTaken(now, chBuf[..], cBufP, nChars, unread);
    }

    /** The loop of yyunput: everything moves up by shift, the last character first. */
    method ShiftUp(shift: nat)
      requires Shape() && Ended() && shift == bufSize - nChars
      modifies chBuf
      ensures Moved(old(All()), All(), shift, nChars + 2) && chBuf[bufSize] == 0 == chBuf[bufSize + 1]
    {
      ghost var before := All();
      var source := nChars + 2;
      while source > 0
        invariant 0 <= source <= nChars + 2
        invariant forall k :: shift + source <= k < chBuf.Length ==> chBuf[k] == before[k - shift]
        invariant forall k :: 0 <= k < source ==> chBuf[k] == before[k]
      {
        source := source - 1;
        chBuf[shift + source] := chBuf[source];
      }
      assert forall k :: shift <= k < |All()| ==> All()[k] == before[k - shift];
    }
  }

  /** unput and then input give back the character, and leave the stream as it was: even a NUL, and even when the
      contents of the buffer had to be moved. */
  method UnputInput(buf: Buffer, c: int) returns (r: Result<Option<int>>)
    requires buf.Valid()
    modifies buf, buf.chBuf
    ensures r.Failure? ==> r.error == PushBackOverflow && old(buf.cBufP) < 2
                           && old(buf.cBufP) + old(buf.bufSize) - old(buf.nChars) < 2
    ensures r.Success? ==> r.value == Some(c) && buf.Valid() && buf.Stream() == old(buf.Stream())
  {
    hide Flatten, OneRead;
    ghost var stream := buf.Stream();
    var _ :- buf.Unput(c);
    r := buf.Input();
    assert r.Success?;
    assert ([c] + stream)[1..] == stream && ([r.value.value] + buf.Stream())[1..] == buf.Stream();
  }

  /** A buffer that is still new, and whose number of characters is no longer right, when all has been read: the next
      call of yylex takes the wrong number for the right one, and misses the end of the buffer. */
  method CountMissed(buf: Buffer) returns (r: Result<EobAct>)
    requires buf.Valid() && buf.status == New && buf.bufChars < buf.nChars && buf.cBufP == buf.nChars
    modifies buf, buf.chBuf
    ensures r == Failure(EndOfBufferMissed)
  {
    buf.chBuf[buf.cBufP] := buf.holdChar;
    buf.textPtr := buf.cBufP;
    buf.cBufP := buf.cBufP + 1;
    if buf.status == New {
      buf.nChars := buf.bufChars;
      buf.status := Normal;
    }
    r := buf.GetNextBuffer();
  }

  /** Two characters that come one at a time and are taken by input, before yylex has ever come to the end of the new
      buffer: then yylex fails. */
  method TwoInputs(x: int, y: int) returns (first: Option<int>, second: Option<int>, r: Result<EobAct>)
    ensures first == Some(x) && second == Some(y) && r == Failure(EndOfBufferMissed)
  {
    hide Flatten, OneRead;
    var chunks: Chunks := [[x], [y]];
    TwoChunks(x, y);
    var buf := new Buffer(16384, chunks);
    var got := buf.Input();
    assert got.Success?;
    first := got.value;
    ReadOne(chunks, buf.input, [[y]]);
    assert ([x] + [y])[1..] == [y] && buf.Stream() == [y];
    AllTaken(buf);
    got := buf.Input();
    assert got.Success?;
    second := got.value;
    ReadOne([[y]], buf.input, []);
    AllTaken(buf);
    r := CountMissed(buf);
  }

  lemma ReadOne(before: Chunks, after: Chunks, rest: Chunks)
    requires before != [] && |before[0]| == 1 && before[1..] == rest && OneRead(before, after)
    ensures after == rest
  {}

  lemma TwoChunks(x: int, y: int)
    ensures Flatten([[x], [y]]) == [x] + [y] && Flatten([[y]]) == [y] && Flatten([]) == []
    ensures [[x], [y]][1..] == [[y]] && [[y]][1..] == []
  {
    assert [[x], [y]][1..] == [[y]] && [[y]][1..] == [];
    assert Flatten([[y]]) == [y] + Flatten([]);
  }

  /** Nothing is left in the buffer when the stream is as long as what is unread. */
  lemma AllTaken(buf: Buffer)
    requires buf.Valid() && buf.fill && |buf.Stream()| == |Flatten(buf.input)|
    ensures buf.cBufP == buf.nChars
  {}

  lemma OneTaken(before: seq<int>, after: seq<int>, cp: nat, n: nat, unread: seq<int>)
    requires 1 <= cp <= n <= |before| && after == before[cp - 1 := 0]
    ensures before[cp - 1..n] + unread
            == [before[cp - 1]] + ((if cp < n then [after[cp]] + after[cp + 1..n] else []) + unread)
  {
    assert before[cp - 1..n] == [before[cp - 1]] + before[cp..n];
    if cp < n { assert before[cp..n] == [after[cp]] + after[cp + 1..n]; }
  }

  lemma FlattenNone(chunks: Chunks)
    ensures Flatten(chunks) == [] <==> chunks == []
  {}

  lemma Lengths(a: seq<int>, b: seq<int>, c: seq<int>, d: seq<int>)
    requires a + b == c + d
    ensures |a| + |b| == |c| + |d|
  {
    assert |a + b| == |c + d|;
  }

  lemma Ahead(front: seq<int>, at: nat, pending: seq<int>, unread: seq<int>, rest: seq<int>)
    requires front + rest == pending + unread && at == |pending| < |front|
    ensures front[at..] + rest == unread
  {
    assert (front + rest)[at..] == front[at..] + rest;
    assert (pending + unread)[at..] == unread;
  }

  lemma Joined(buf: seq<int>, moved: nat, n: nat, pending: seq<int>, unread: seq<int>, rest: seq<int>)
    requires moved + n <= |buf| && buf[..moved] == pending && unread == buf[moved..moved + n] + rest
    ensures buf[..moved + n] + rest == pending + unread
  {
    assert buf[..moved + n] == buf[..moved] + buf[moved..moved + n];
  }

  /** The first len elements have been moved up by shift. */
  ghost predicate Moved(before: seq<int>, after: seq<int>, shift: nat, len: nat) {
    |after| == shift + len && len <= |before| && forall k :: shift <= k < |after| ==> after[k] == before[k - shift]
  }

  lemma Shifted(after: seq<int>, before: seq<int>, shift: nat, len: nat, lo: nat, hi: nat)
    requires Moved(before, after, shift, len) && lo <= hi <= len
    ensures |after| == shift + len && len <= |before| && after[shift + lo..shift + hi] == before[lo..hi]
  {}

  lemma Stored(after: seq<int>, before: seq<int>, cp: nat, c: int, n: nat)
    requires cp < n <= |before| && after == before[cp := c]
    ensures after[cp + 1..n] == before[cp + 1..n]
  {}
}
