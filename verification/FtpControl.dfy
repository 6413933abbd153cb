/** The control connection of the FTP server (src/ftp.c): bytes arrive in pieces of any size, lines are cut
    out of a fixed buffer and dispatched, and a command that starts a transfer pauses the rest. */
module FtpControl {
  import opened FtpLines

  const FTP_MSG_BUFFER_SIZE: nat := 1024

  datatype Status = Open | Closed(reason: Reason)

  datatype Reason = ReadError | EndOfFile | NullByte | BareLineFeed | CommandFailed | LineTooLong

  /** What the next read finds: bytes that have arrived (none means the client is done), nothing yet, or an
      error. */
  datatype Arrival = Bytes(d: string) | Again | Error

  /** All bytes that can still be read. */
  function Stream(arrivals: seq<Arrival>): string {
    if arrivals == [] then ""
    else match arrivals[0]
      case Bytes(d) => if d == "" then "" else d + Stream(arrivals[1..])
      case Again => Stream(arrivals[1..])
      case Error => ""
  }

  /** What has arrived goes before what follows. */
  lemma {:induction false} StreamParts(a: seq<Arrival>, k: nat)
    requires k <= |a| && forall j :: 0 <= j < k ==> a[j].Bytes? && a[j].d != ""
    ensures Stream(a) == Stream(a[..k]) + Stream(a[k..])
    decreases k
  {
    if k == 0 {
      assert a[..0] == [] && a[0..] == a;
    } else {
      StreamParts(a[1..], k - 1);
      assert a[..k][1..] == a[1..][..k - 1] && a[k..] == a[1..][k - 1..];
      assert Stream(a[..k]) == a[0].d + Stream(a[..k][1..]);
      var x, y := Stream(a[..k][1..]), Stream(a[k..]);
      assert a[0].d + (x + y) == a[0].d + x + y;
    }
  }

  lemma SameFront(x: string, y: string, rest: string)
    requires x + rest == y + rest
    ensures x == y
  {
    assert |x| == |y| && x == (x + rest)[..|x|] && y == (y + rest)[..|y|];
  }

  /** How often and how much can still be read. */
  function Weight(arrivals: seq<Arrival>): nat {
    if arrivals == [] then 0
    else 1 + (if arrivals[0].Bytes? then |arrivals[0].d| else 0) + Weight(arrivals[1..])
  }

  /** What a connection is closed for: a null byte, a line feed in the next line, a command that failed, or a
      full buffer without a line end. */
  ghost predicate Justifies(close: Status, received: string, consumed: nat, failed: bool)
    requires consumed <= |Lines(received)|
  {
    && (close == Closed(NullByte) ==> '\0' in received)
    && (close == Closed(BareLineFeed) ==> consumed < |Lines(received)| && '\n' in Lines(received)[consumed])
    && (close == Closed(CommandFailed) ==> failed)
    && (close == Closed(LineTooLong) ==>
          var unread := Drop(received, consumed); |unread| == FindCrlf(unread) == FTP_MSG_BUFFER_SIZE - 1)
  }

  lemma OpenIsJustified(received: string, consumed: nat, failed: bool)
    requires consumed <= |Lines(received)|
    ensures Justifies(Open, received, consumed, failed)
  {
  }

  /** Of `a` the arrivals from the `k`-th on are left; the first of them may have been read in part. */
  ghost predicate Left(a: seq<Arrival>, k: nat, left: seq<Arrival>) {
    && k <= |a| && (forall j :: 0 <= j < k ==> a[j].Bytes? && a[j].d != "")
    && |left| == |a| - k && (k < |a| ==> left[1..] == a[k + 1..])
    && (k < |a| ==> left[0] == a[k] || (a[k].Bytes? && a[k].d != "" && left[0].Bytes? && left[0].d != ""))
  }

  /** A read that gets bytes goes on in `a`. */
  lemma LeftMore(a: seq<Arrival>, k: nat, left: seq<Arrival>, d: string, now: seq<Arrival>)
    requires Left(a, k, left) && left != [] && d != ""
    requires (left[0] == Bytes(d) && now == left[1..])
             || (left[0].Bytes? && d < left[0].d && now == [Bytes(left[0].d[|d|..])] + left[1..])
    ensures Left(a, if |now| < |left| then k + 1 else k, now)
  {
  }

  /** Any other read has got everything before it. */
  lemma LeftNothing(a: seq<Arrival>, k: nat, left: seq<Arrival>, r: Arrival, before: string, received: string)
    requires Left(a, k, left) && (if left == [] then r == Again else r == left[0]) && (r.Bytes? ==> r.d == "")
    requires received + Stream(left) == before + Stream(a)
    ensures received == before + Stream(a[..k]) && left == a[k..]
  {
    hide Stream;
    assert left == a[k..];
    StreamParts(a, k);
    assert before + (Stream(a[..k]) + Stream(left)) == before + Stream(a[..k]) + Stream(left);
    SameFront(received, before + Stream(a[..k]), Stream(left));
  }

  /** The socket, as the arrivals still to come. */
  class Socket {
    var arrivals: seq<Arrival>

    constructor (arrivals: seq<Arrival>)
      ensures this.arrivals == arrivals
    {
      this.arrivals := arrivals;
    }

    /** A read takes no more than `limit` bytes; what is left over comes with the next read. */
    method Read(limit: nat) returns (r: Arrival)
      requires limit > 0
      modifies this
      ensures if old(arrivals) == [] then r == Again && arrivals == []
              else if old(arrivals)[0].Bytes? && |old(arrivals)[0].d| > limit then
                r == Bytes(old(arrivals)[0].d[..limit])
                    && arrivals == [Bytes(old(arrivals)[0].d[limit..])] + old(arrivals)[1..]
              else r == old(arrivals)[0] && arrivals == old(arrivals)[1..]
      ensures r.Bytes? && r.d != "" ==> |r.d| <= limit && Stream(old(arrivals)) == r.d + Stream(arrivals)
      ensures r == Again ==> Stream(old(arrivals)) == Stream(arrivals)
      ensures r == Error || r == Bytes("") ==> Stream(old(arrivals)) == ""
      ensures old(arrivals) != [] ==> Weight(arrivals) < Weight(old(arrivals))
    {
      if arrivals == [] {
        return Again;
      }
      r := arrivals[0];
      if r.Bytes? && |r.d| > limit {
        ghost var was := arrivals;
        arrivals := [Bytes(r.d[limit..])] + arrivals[1..];
        assert was[0].d == r.d[..limit] + r.d[limit..];
        assert r.d[..limit] + (r.d[limit..] + Stream(was[1..])) == r.d + Stream(was[1..]);
        assert arrivals[1..] == was[1..];
        r := Bytes(r.d[..limit]);
      } else {
        arrivals := arrivals[1..];
      }
    }
  }

  class Connection {
    const buf: array<char>
    var offset: nat
    var dataCallback: bool
    var status: Status
    ghost var received: string
    ghost var consumed: nat
    ghost var dispatched: seq<string>
    ghost var failed: bool

    constructor ()
      ensures Valid() && fresh(buf) && status == Open && !dataCallback && received == "" && dispatched == [] && !failed
    {
      buf := new char[FTP_MSG_BUFFER_SIZE](_ => '\0');
      offset, dataCallback, status := 0, false, Open;
      received, consumed, dispatched, failed := "", 0, [], false;
    }

    /** The bytes received that no line dispatched so far has used up. */
    ghost function Unread(): string
      requires consumed <= |Lines(received)|
      reads this
    {
      Drop(received, consumed)
    }

    /** The commands dispatched are the non-empty ones of the first lines received, and while the connection
        is open the buffer holds exactly the rest. */
    ghost predicate Valid()
      reads this, buf
    {
      && buf.Length == FTP_MSG_BUFFER_SIZE
      && consumed <= |Lines(received)| && dispatched == NonEmpty(Lines(received)[..consumed])
      && (status == Open ==> offset < FTP_MSG_BUFFER_SIZE - 1 && buf[..offset] == Unread() && '\0' !in Unread())
    }

    /** No complete line waits in the buffer. */
    ghost predicate Drained()
      requires consumed <= |Lines(received)|
      reads this
    {
      consumed == |Lines(received)|
    }

    /** The reason for closing is there to show. */
    ghost predicate Justified(close: Status)
      requires consumed <= |Lines(received)|
      reads this
    {
      Justifies(close, received, consumed, failed)
    }

    /** A command is processed: it may fail, and it may start a transfer. */
    method ProcessCommand(line: string) returns (ok: bool)
      modifies this`dataCallback, this`dispatched, this`failed
      ensures dispatched == old(dispatched) + [line] && failed == (old(failed) || !ok)
    {
      dispatched := dispatched + [line];
      dataCallback := *;
      ok := *;
      failed := failed || !ok;
    }

    /** strstr for a line end from `next` on, in a string that ends at `offset`. */
    method StrStr(next: nat, ghost text: string) returns (found: bool, end: nat)
      requires next + |text| < buf.Length && buf[next..next + |text|] == text && buf[next + |text|] == '\0'
               && '\0' !in text
      ensures if found then next <= end && end - next == FindCrlf(text) < |text| else FindCrlf(text) == |text|
    {
      end := next;
      while buf[end] != '\0'
        invariant next <= end <= next + |text|
        invariant forall j: nat :: j < end - next ==> !CrlfAt(text, j)
        decreases next + |text| - end
      {
        ghost var i := end - next;
        assert i < |text| ==> text[i] == buf[next..next + |text|][i] == buf[end];
        assert i + 1 < |text| ==> text[i + 1] == buf[next..next + |text|][i + 1] == buf[end + 1];
        if buf[end] == '\r' && buf[end + 1] == '\n' {
          FindUnique(text, i);
          return true, end;
        }
        end := end + 1;
      }
      assert end - next < |text| ==> text[end - next] == buf[next..next + |text|][end - next];
      FindUnique(text, |text|);
      found := false;
    }

    /** The buffer from `next` to `offset` is what has not been used up. */
    ghost predicate Holding(next: nat)
      reads this, buf
    {
      && buf.Length == FTP_MSG_BUFFER_SIZE && next <= offset < buf.Length && buf[offset] == '\0'
      && consumed <= |Lines(received)| && dispatched == NonEmpty(Lines(received)[..consumed])
      && buf[next..offset] == Unread() && '\0' !in Unread()
    }

    /** One line, which ends at `end`. */
    method DispatchLine(next: nat, end: nat) returns (close: Status)
      requires Holding(next) && !dataCallback && next <= end && end - next == FindCrlf(Unread()) < |Unread()|
      modifies this`dataCallback, this`dispatched, this`failed, this`consumed, buf
      ensures buf.Length == FTP_MSG_BUFFER_SIZE && consumed <= |Lines(received)|
              && dispatched == NonEmpty(Lines(received)[..consumed])
      ensures close == Open ==> Holding(end + 2) && consumed == old(consumed) + 1
      ensures close == Open || close == Closed(BareLineFeed) || close == Closed(CommandFailed)
      ensures old(consumed) <= consumed
      ensures close == Closed(BareLineFeed) ==> '\n' in old(Unread())[..end - next] && consumed == old(consumed)
      ensures '\n' in old(Unread())[..end - next] ==> close == Closed(BareLineFeed)
      ensures Justified(close) && failed == (old(failed) || close == Closed(CommandFailed))
      ensures old(dispatched) <= dispatched
      ensures dataCallback || close == Closed(CommandFailed) ==> old(dispatched) < dispatched
    {
      hide Lines, Drop, FindCrlf, NonEmpty;
      close := Open;
      ghost var text, i := Unread(), end - next;
      NextLine(received, consumed);
      NonEmptyMore(Lines(received), consumed);
      LineEnd(text, i);
      buf[end] := '\0';
      var line := buf[next..end];
      assert line == text[..i] by {
        assert line == old(buf[next..offset])[..i];
      }
      assert buf[end + 2..offset] == text[i + 2..] by {
        assert buf[end + 2..offset] == old(buf[next..offset])[i + 2..];
      }
      if '\n' in line {
        return Closed(BareLineFeed);
      }
      consumed := consumed + 1;
      if line != "" {
        var ok := ProcessCommand(line);
        if !ok {
          close := Closed(CommandFailed);
        }
      }
    }

    /** The loop over the lines in the buffer. It ends when no line is complete, when a command has started a
        transfer, or with the connection to be closed. */
    method DispatchLines() returns (next: nat, close: Status)
      requires Holding(0) && !dataCallback
      modifies this`dataCallback, this`dispatched, this`failed, this`consumed, buf
      ensures buf.Length == FTP_MSG_BUFFER_SIZE
      ensures old(consumed) <= consumed <= |Lines(received)| && dispatched == NonEmpty(Lines(received)[..consumed])
      ensures close == Open ==> Holding(next) && (dataCallback || Drained())
      ensures close == Open || close == Closed(BareLineFeed) || close == Closed(CommandFailed)
      ensures close == Open ==> if next == 0 then consumed == old(consumed) && !dataCallback else next >= 2
      ensures Justified(close) && failed == (old(failed) || close == Closed(CommandFailed))
      ensures old(dispatched) <= dispatched
      ensures dataCallback || close == Closed(CommandFailed) ==> old(dispatched) < dispatched
    {
      hide Lines, Drop, FindCrlf, NonEmpty, Justifies;
      next, close := 0, Open;
      var found, end := StrStr(next, Unread());
      while found && !dataCallback
        invariant Holding(next) && old(consumed) <= consumed && close == Open
        invariant failed == old(failed) && old(dispatched) <= dispatched
        invariant dataCallback ==> old(dispatched) < dispatched
        invariant if next == 0 then consumed == old(consumed) && !dataCallback else next >= 2
        invariant if found then next <= end && end - next == FindCrlf(Unread()) < |Unread()|
                  else FindCrlf(Unread()) == |Unread()|
        decreases offset - next
      {
        close := DispatchLine(next, end);
        if close != Open {
          return;
        }
        next := end + 2;
        found, end := StrStr(next, Unread());
      }
      NextLine(received, consumed);
      OpenIsJustified(received, consumed, failed);
    }

    /** Takes the bytes into the buffer, with a null byte behind them, and looks for others. */
    method Receive(d: string) returns (close: Status)
      requires Valid() && status == Open && d != "" && offset + |d| < FTP_MSG_BUFFER_SIZE
      modifies this`offset, this`received, buf
      ensures received == old(received) + d && offset == old(offset) + |d| && consumed <= |Lines(received)|
      ensures dispatched == NonEmpty(Lines(received)[..consumed])
      ensures if '\0' in d then close == Closed(NullByte) else close == Open && Holding(0)
      ensures Justified(close)
    {
      hide Lines, Drop, FindCrlf, NonEmpty;
      MoreText(received, d, consumed);
      forall k | 0 <= k < |d| {
        buf[offset + k] := d[k];
      }
      assert buf[..offset] == old(buf[..offset]);
      assert buf[..offset + |d|] == Unread() + d;
      offset := offset + |d|;
      buf[offset] := '\0';
      received := received + d;
      close := if '\0' in d then Closed(NullByte) else Open;
    }

    /** Once lines have been used, the rest moves to the front of the buffer. */
    method MoveRest(next: nat)
      requires Holding(next)
      modifies this`offset, buf
      ensures offset == old(offset) - next && buf[..offset] == Unread()
    {
      hide Lines, Drop, FindCrlf, NonEmpty;
      var n := offset - next;
      ghost var rest := buf[next..offset];
      forall k | 0 <= k < n {
        buf[k] := buf[next + k];
      }
      offset := n;
      assert buf[..n] == rest;
    }

    /** One round of the loop after a read that got bytes. */
    method TakeIn(d: string) returns (close: Status)
      requires Valid() && status == Open && d != "" && offset + |d| < FTP_MSG_BUFFER_SIZE && !dataCallback
      modifies this`offset, this`dataCallback, this`received, this`consumed, this`dispatched, this`failed, buf
      ensures received == old(received) + d && old(consumed) <= consumed <= |Lines(received)|
      ensures dispatched == NonEmpty(Lines(received)[..consumed])
      ensures close == Open ==>
                offset < FTP_MSG_BUFFER_SIZE && buf[..offset] == Unread() && '\0' !in Unread()
                  && (dataCallback || Drained())
      ensures close == Open && offset == FTP_MSG_BUFFER_SIZE - 1 ==> !dataCallback && Drained()
      ensures close == Open || close == Closed(NullByte) || close == Closed(BareLineFeed)
              || close == Closed(CommandFailed)
      ensures Justified(close) && failed == (old(failed) || close == Closed(CommandFailed))
      ensures old(dispatched) <= dispatched
      ensures dataCallback || close == Closed(CommandFailed) ==> old(dispatched) < dispatched
    {
      hide Lines, Drop, FindCrlf, NonEmpty;
      close := Receive(d);
      if close != Open {
        return;
      }
      var next;
      next, close := DispatchLines();
      if close == Open && next != 0 {
        MoveRest(next);
      }
    }

    /** One round of the loop: a read, and what it got is taken in. There is nothing `more` to do when the read got
        no bytes. */
    method ReadOnce(socket: Socket, ghost a: seq<Arrival>, ghost k0: nat) returns (more: bool, ghost k: nat)
      requires Valid() && status == Open && !dataCallback && Left(a, k0, socket.arrivals)
      modifies this`offset, this`dataCallback, this`status, this`received, this`consumed, this`dispatched, this`failed,
               buf, socket
      ensures var left := old(socket.arrivals);
              more == (left != [] && left[0].Bytes? && left[0].d != "")
              && (!more ==>
                    k == k0 && received == old(received) && consumed == old(consumed) && dispatched == old(dispatched)
                    && failed == old(failed) && !dataCallback && Valid()
                    && status == (if left == [] || left[0] == Again then Open
                                  else Closed(if left[0].Error? then ReadError else EndOfFile))
                    && socket.arrivals == if left == [] then [] else left[1..])
              && (more ==> Left(a, k, socket.arrivals) && old(received) < received)
              && (left != [] ==> Weight(socket.arrivals) < Weight(left))
      ensures if more then received + Stream(socket.arrivals) == old(received) + old(Stream(socket.arrivals))
              else old(Stream(socket.arrivals)) == if status == Open then Stream(socket.arrivals) else ""
      ensures more ==>
                && old(consumed) <= consumed <= |Lines(received)| && old(dispatched) <= dispatched
                && (dataCallback || status == Closed(CommandFailed) ==> old(dispatched) < dispatched)
                && Justified(status) && failed == (old(failed) || status == Closed(CommandFailed))
                && if status == Open then
                     if offset < FTP_MSG_BUFFER_SIZE - 1 then Valid() && (dataCallback || Drained()) else Full()
                   else Valid() && status != Closed(EndOfFile) && status != Closed(ReadError)
    {
      hide Lines, Drop, FindCrlf, NonEmpty, Stream, Weight, Left, Justifies;
      ghost var left := socket.arrivals;
      k, more := k0, false;
      var r := socket.Read(FTP_MSG_BUFFER_SIZE - 1 - offset);
      match r {
        case Error =>
          status := Closed(ReadError);
        case Again =>
        case Bytes(d) =>
          if d == "" {
            status := Closed(EndOfFile);
            return;
          }
          more := true;
          ghost var was := received;
          LeftMore(a, k, left, d, socket.arrivals);
          k := if |socket.arrivals| < |left| then k + 1 else k;
          status := TakeIn(d);
          assert was + (d + Stream(socket.arrivals)) == received + Stream(socket.arrivals);
      }
    }

    /** Reads and dispatches until nothing more has arrived, a transfer starts, or the connection closes.
        However the bytes are cut into pieces, what has been dispatched is decided by the bytes alone. `k` counts
        the arrivals that have been read whole. Lines that were waiting when the call began stay where they are
        unless something is read. */
    method ProcessControlEvents(socket: Socket) returns (ghost k: nat)
      requires Valid() && status == Open
      modifies this`offset, this`dataCallback, this`status, this`received, this`consumed, this`dispatched, this`failed,
               buf, socket
      ensures Valid() && old(consumed) <= consumed && old(received) <= received && old(dispatched) <= dispatched
      ensures old(received + Stream(socket.arrivals))
           == received + if status == Closed(ReadError) || status == Closed(EndOfFile) then ""
               else Stream(socket.arrivals)
      ensures old(dataCallback) ==>
                received == old(received) && dataCallback && status == Open && socket.arrivals == old(socket.arrivals)
      ensures (status == Open && !dataCallback) || status == Closed(EndOfFile) || status == Closed(ReadError) ==>
                (Drained() <==> old(Drained()) || received != old(received))
      ensures received == old(received) ==> consumed == old(consumed) && dispatched == old(dispatched)
      ensures Justified(status) && failed == (old(failed) || status == Closed(CommandFailed))
      ensures (dataCallback && !old(dataCallback)) || status == Closed(CommandFailed) ==>
                old(dispatched) < dispatched
      ensures !old(dataCallback) && old(socket.arrivals) != [] ==>
                var first := old(socket.arrivals)[0];
                (first.Error? ==> status == Closed(ReadError))
                && (first.Bytes? && first.d == "" ==> status == Closed(EndOfFile))
                && (first.Bytes? && first.d != "" ==> |received| > |old(received)|)
                && Weight(socket.arrivals) < Weight(old(socket.arrivals))
      ensures (status == Open && !dataCallback) || status == Closed(EndOfFile) || status == Closed(ReadError) ==>
                k <= |old(socket.arrivals)| && received == old(received) + Stream(old(socket.arrivals)[..k])
                && (forall j :: 0 <= j < k ==> old(socket.arrivals)[j].Bytes? && old(socket.arrivals)[j].d != "")
      ensures status == Open && !dataCallback ==>
                if k == |old(socket.arrivals)| then socket.arrivals == []
                else old(socket.arrivals)[k] == Again && socket.arrivals == old(socket.arrivals)[k + 1..]
      ensures status == Closed(EndOfFile) || status == Closed(ReadError) ==>
                k < |old(socket.arrivals)|
                && old(socket.arrivals)[k] == if status == Closed(EndOfFile) then Bytes("") else Error
    {
      hide Lines, Drop, FindCrlf, NonEmpty, Stream, Weight;
      ghost var a := socket.arrivals;
      k := 0;
      OpenIsJustified(received, consumed, failed);
      while offset < FTP_MSG_BUFFER_SIZE - 1
        invariant status == Open && old(consumed) <= consumed && old(received) <= received
        invariant failed == old(failed) && old(dispatched) <= dispatched
        invariant dataCallback && !old(dataCallback) ==> old(dispatched) < dispatched
        invariant old(dataCallback) ==> received == old(received) && dataCallback
        invariant if received == old(received) then
                      consumed == old(consumed) && dispatched == old(dispatched) && socket.arrivals == a && k == 0
                          && dataCallback == old(dataCallback) && offset < FTP_MSG_BUFFER_SIZE - 1
                  else a != [] && a[0].Bytes? && a[0].d != "" && Weight(socket.arrivals) < Weight(a)
        invariant received + Stream(socket.arrivals) == old(received) + Stream(a) && Left(a, k, socket.arrivals)
        invariant if offset < FTP_MSG_BUFFER_SIZE - 1 then Valid() else Full()
        invariant !dataCallback && received != old(received) ==> consumed == |Lines(received)|
        decreases Weight(socket.arrivals)
      {
        if dataCallback {
          return;
        }
        ghost var left := socket.arrivals;
        var more;
        more, k := ReadOnce(socket, a, k);
        if !more {
          LeftNothing(a, k, left, if left == [] then Again else left[0], old(received), received);
          return;
        }
        if status != Open {
          return;
        }
      }
      LinesMakeText(received);
      status := Closed(LineTooLong);
    }

    /** A buffer full of text without a line end. */
    ghost predicate Full()
      reads this, buf
    {
      && buf.Length == FTP_MSG_BUFFER_SIZE && offset == FTP_MSG_BUFFER_SIZE - 1
      && consumed <= |Lines(received)| && dispatched == NonEmpty(Lines(received)[..consumed])
      && buf[..offset] == Unread() && Drained() && !dataCallback
    }
  }

  lemma LineEnd(text: string, i: nat)
    requires i == FindCrlf(text) < |text|
    ensures i + 2 <= |text|
  {
  }

  /** A stream the server takes: no null bytes, no line feed inside a line, and no line longer than the buffer
      has room for, also the last one, which has no end yet. */
  ghost predicate Clean(all: string) {
    && '\0' !in all
    && (forall k :: 0 <= k < |Lines(all)| ==> '\n' !in Lines(all)[k] && |Lines(all)[k]| <= 1021)
    && |Drop(all, |Lines(all)|)| <= 1022
  }

  lemma NullIsUnclean(received: string, more: string)
    requires '\0' in received
    ensures !Clean(received + more)
  {
    assert '\0' in received + more;
  }

  lemma LineFeedIsUnclean(received: string, more: string, k: nat)
    requires k < |Lines(received)| && '\n' in Lines(received)[k]
    ensures !Clean(received + more)
  {
    hide Lines, Drop, FindCrlf;
    MoreText(received, more, k + 1);
    assert Lines(received + more)[k] == Lines(received + more)[..k + 1][k] == Lines(received)[..k + 1][k];
  }

  lemma LongIsUnclean(received: string, more: string, k: nat)
    requires k <= |Lines(received)| && |Drop(received, k)| == FindCrlf(Drop(received, k)) == FTP_MSG_BUFFER_SIZE - 1
    ensures !Clean(received + more)
  {
    hide Lines, Drop, FindCrlf;
    var all, rest := received + more, Drop(received, k);
    MoreText(received, more, k);
    LongLine(rest, more);
    NextLine(all, k);
    assert Drop(all, k) == rest + more;
    assert |rest + more| >= FTP_MSG_BUFFER_SIZE - 1;
    if FindCrlf(rest + more) < |rest + more| {
      assert |Lines(all)[k]| == FindCrlf(rest + more);
    }
  }

  /** On such a stream there is no other reason to close a connection than a failed command or the end. */
  lemma NoOtherReason(close: Status, received: string, consumed: nat, failed: bool, more: string)
    requires consumed <= |Lines(received)| && Justifies(close, received, consumed, failed) && Clean(received + more)
    ensures close == Open || close == Closed(EndOfFile) || close == Closed(ReadError)
            || (close == Closed(CommandFailed) && failed)
  {
    hide Lines, Drop, FindCrlf;
    if close.Closed? {
      match close.reason {
        case NullByte =>
          NullIsUnclean(received, more);
        case BareLineFeed =>
          LineFeedIsUnclean(received, more, consumed);
        case LineTooLong =>
          LongIsUnclean(received, more, consumed);
        case _ =>
      }
    }
  }

  /** Any number of calls, with transfers that end in between: the commands dispatched are the first non-empty
      lines of the whole stream, however it was cut into reads. A clean stream is read to its end, unless a command
      fails.
      When the last call began, `before` had been received, `at` was still to come, and `waiting` says that complete
      lines were left over from a transfer. It has read the first `k` arrivals, and unless it `paused` for a transfer
      or closed the connection, no other was there to read, and all complete lines are dispatched if it has read
      something or none were waiting. `ends` says after which calls a transfer that is running ends; if it always
      does, enough calls read everything. */
  method Session(c: Connection, socket: Socket, ends: seq<bool>)
    returns (ghost before: string, ghost at: seq<Arrival>, ghost waiting: bool, ghost k: nat, paused: bool)
    requires c.Valid() && c.status == Open
    modifies c`offset, c`dataCallback, c`status, c`received, c`consumed, c`dispatched, c`failed, c.buf, socket
    ensures c.Valid() && before <= c.received <= old(c.received + Stream(socket.arrivals))
    ensures c.dispatched <= NonEmpty(Lines(old(c.received + Stream(socket.arrivals))))
    ensures c.status == Open || c.status == Closed(EndOfFile) || c.status == Closed(ReadError) ==>
              !paused && (!waiting || before != c.received) ==> c.dispatched == NonEmpty(Lines(c.received))
    ensures ends != [] && c.status == Open && !paused ==>
              k <= |at| && c.received == before + Stream(at[..k])
              && (forall j :: 0 <= j < k ==> at[j].Bytes? && at[j].d != "")
              && if k == |at| then socket.arrivals == [] else at[k] == Again && socket.arrivals == at[k + 1..]
    ensures !old(c.dataCallback) && (forall i :: 0 <= i < |ends| ==> ends[i]) ==>
              (paused ==> old(c.dispatched) < c.dispatched)
              && (|ends| > Weight(old(socket.arrivals)) && c.status == Open ==>
                    socket.arrivals == [] && c.received == old(c.received + Stream(socket.arrivals)))
    ensures c.status == Closed(LineTooLong) ==> forall more: string :: FindCrlf(c.Unread() + more) >= 1022
    ensures Clean(old(c.received + Stream(socket.arrivals))) ==>
              c.status == Open || c.status == Closed(EndOfFile) || c.status == Closed(ReadError)
              || (c.status == Closed(CommandFailed) && c.failed)
  {
    hide Lines, Drop, FindCrlf, NonEmpty, Stream, Clean, Weight;
    ghost var all, weight := c.received + Stream(socket.arrivals), Weight(socket.arrivals);
    ghost var ended := !c.dataCallback;
    before, at, waiting, k, paused := c.received, socket.arrivals, true, 0, c.dataCallback;
    var i := 0;
    while i < |ends| && c.status == Open
      invariant i <= |ends| && old(c.dispatched) <= c.dispatched
      invariant !old(c.dataCallback) && (forall j :: 0 <= j < i ==> ends[j]) ==> ended
      invariant ended && paused ==> old(c.dispatched) < c.dispatched
      invariant c.Valid() && before <= c.received <= all && c.Justified(c.status)
      invariant c.status == Open ==> c.received + Stream(socket.arrivals) == all
      invariant c.status == Open || c.status == Closed(EndOfFile) || c.status == Closed(ReadError) ==>
                  !paused && (!waiting || before != c.received) ==> c.Drained()
      invariant i > 0 && c.status == Open && !paused ==>
                  k <= |at| && c.received == before + Stream(at[..k])
                  && (forall j :: 0 <= j < k ==> at[j].Bytes? && at[j].d != "")
                  && if k == |at| then socket.arrivals == [] else at[k] == Again && socket.arrivals == at[k + 1..]
      invariant ended && c.status == Open ==>
                  !c.dataCallback && (socket.arrivals == [] || Weight(socket.arrivals) + i <= weight)
    {
      before, at, waiting := c.received, socket.arrivals, !c.Drained();
      k := c.ProcessControlEvents(socket);
      NothingMore(before, at, c.received, socket.arrivals);
      paused := c.dataCallback;
      if ends[i] {
        c.dataCallback := false;
      }
      ended := ended && ends[i];
      i := i + 1;
    }
    NothingMore(c.received, [], c.received, socket.arrivals);
    Outcome(c, all);
  }

  /** What a valid connection that has received the first bytes of a stream shows. */
  lemma Outcome(c: Connection, all: string)
    requires c.Valid() && c.received <= all && c.Justified(c.status)
    ensures c.dispatched <= NonEmpty(Lines(all)) && (c.Drained() ==> c.dispatched == NonEmpty(Lines(c.received)))
    ensures c.status == Closed(LineTooLong) ==> forall more: string :: FindCrlf(c.Unread() + more) >= 1022
    ensures Clean(all) ==>
              c.status == Open || c.status == Closed(EndOfFile) || c.status == Closed(ReadError)
              || (c.status == Closed(CommandFailed) && c.failed)
  {
    hide Lines, Drop, FindCrlf, NonEmpty, Clean;
    PrefixOfAll(c.received, all[|c.received|..], c.consumed);
    assert c.received + all[|c.received|..] == all;
    assert c.Drained() ==> Lines(c.received)[..c.consumed] == Lines(c.received);
    if Clean(all) {
      NoOtherReason(c.status, c.received, c.consumed, c.failed, all[|c.received|..]);
    }
    if c.status == Closed(LineTooLong) {
      forall more: string
        ensures FindCrlf(c.Unread() + more) >= 1022
      {
        LongLine(c.Unread(), more);
      }
    }
  }

  /** With nothing to come, nothing is received. */
  lemma NothingMore(before: string, at: seq<Arrival>, received: string, left: seq<Arrival>)
    requires before <= received
    ensures at == [] && before + Stream(at) == received + Stream(left) ==> received == before
    ensures left == [] ==> received + Stream(left) == received && Weight(left) == 0
  {
  }

  /** What has been dispatched stays right whatever is received later. */
  lemma PrefixOfAll(received: string, more: string, k: nat)
    requires k <= |Lines(received)|
    ensures NonEmpty(Lines(received)[..k]) <= NonEmpty(Lines(received + more))
  {
    hide Lines, Drop, FindCrlf;
    MoreText(received, more, k);
    NonEmptyPrefix(Lines(received + more), k);
  }

  lemma {:induction false} NonEmptyPrefix(lines: seq<string>, k: nat)
    requires k <= |lines|
    ensures NonEmpty(lines[..k]) <= NonEmpty(lines)
    decreases |lines|
  {
    if k == |lines| {
      assert lines[..k] == lines;
    } else {
      var init := lines[..|lines| - 1];
      NonEmptyPrefix(init, k);
      assert init[..k] == lines[..k];
    }
  }
}
