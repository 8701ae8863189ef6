/**
 The body-size gate: a counter between the server's `receive` and an arbitrary inner application, which may
 catch the gate's exception and receive again.
 */
module RequestSize {
  import opened Characters
  import opened Wrappers

  type Bytes = seq<bv8>

  datatype Incoming = HttpRequest(body: Bytes) | Disconnect

  datatype Outgoing = Start(status: int) | Chunk(body: Bytes)

  datatype Received = Delivered(message: Incoming) | TooLarge

  /**
   What the application does next. `patient` says whether it catches RequestTooLarge; one that it has caught it may
   raise again at any later time. Raising again with nothing caught is an error of another kind.
   */
  datatype Step = Receive(patient: bool) | Send(message: Outgoing) | Reraise | Fail

  datatype Ending = Returned | Oversize | Failed

  /** A header, with what `int(value)` gives for its value. */
  datatype Header = Header(name: string, number: Option<int>)

  function LowerAll(s: string): string {
    if s == "" then "" else [Lower(s[0])] + LowerAll(s[1..])
  }

  /** Only the first Content-Length header is looked at, even if its value is no number. */
  function ContentLength(headers: seq<Header>): Option<int> {
    if headers == [] then None
    else if LowerAll(headers[0].name) == "content-length" then headers[0].number
    else ContentLength(headers[1..])
  }

  predicate IsContentLength(name: string) {
    && |name| == |"content-length"|
    && forall i :: 0 <= i < |name| ==>
         || name[i] == "content-length"[i]
         || ('A' <= name[i] <= 'Z' && name[i] as int + 32 == "content-length"[i] as int)
  }

  lemma {:induction false} LowerAllAt(s: string, i: nat)
    ensures |LowerAll(s)| == |s| && (i < |s| ==> LowerAll(s)[i] == Lower(s[i]))
  {
    if s != "" {
      LowerAllAt(s[1..], if i > 0 then i - 1 else 0);
    }
  }

  lemma ContentLengthName(name: string)
    ensures IsContentLength(name) <==> LowerAll(name) == "content-length"
  {
    LowerAllAt(name, 0);
    forall i | 0 <= i < |name| ensures LowerAll(name)[i] == Lower(name[i]) {
      LowerAllAt(name, i);
    }
  }

  /** The first header of that name, in any case, decides, whether or not its value is a number. */
  lemma {:induction false} FirstContentLengthDecides(headers: seq<Header>, i: nat)
    requires i <= |headers| && (i < |headers| ==> IsContentLength(headers[i].name))
    requires forall j :: 0 <= j < i ==> !IsContentLength(headers[j].name)
    ensures ContentLength(headers) == if i < |headers| then headers[i].number else None
  {
    if headers != [] {
      ContentLengthName(headers[0].name);
      if i > 0 {
        FirstContentLengthDecides(headers[1..], i - 1);
      }
    }
  }

  // ---------------------------------------------------------------- specification

  function Size(message: Incoming): nat {
    if message.HttpRequest? then |message.body| else 0
  }

  function Total(messages: seq<Incoming>): nat {
    if messages == [] then 0 else Total(messages[..|messages| - 1]) + Size(messages[|messages| - 1])
  }

  /** What the `i`-th receive of the application gets: the message itself as long as the bytes so far fit. */
  function Gated(messages: seq<Incoming>, limit: int, i: nat): Received
    requires i < |messages|
  {
    if messages[i].HttpRequest? && Total(messages[..i + 1]) > limit then TooLarge else Delivered(messages[i])
  }

  /** The gated messages, then the client's disconnect for ever. */
  function Answer(messages: seq<Incoming>, limit: int, i: nat): Received {
    if i < |messages| then Gated(messages, limit, i) else Delivered(Disconnect)
  }

  /** `seen` is what a run of receives has returned. */
  predicate Behind(seen: seq<Received>, messages: seq<Incoming>, limit: int) {
    forall i :: 0 <= i < |seen| ==>
      seen[i] == Answer(messages, limit, i)
  }

  /** The client's body. */
  function BodyOf(messages: seq<Incoming>): Bytes {
    if messages == [] then []
    else
      var last := messages[|messages| - 1];
      BodyOf(messages[..|messages| - 1]) + (if last.HttpRequest? then last.body else [])
  }

  lemma {:induction false} TotalIsItsLength(messages: seq<Incoming>)
    ensures Total(messages) == |BodyOf(messages)|
  {
    if messages != [] {
      TotalIsItsLength(messages[..|messages| - 1]);
    }
  }

  /** What of it the application got. */
  function DeliveredBody(seen: seq<Received>): Bytes {
    if seen == [] then []
    else
      var last := seen[|seen| - 1];
      DeliveredBody(seen[..|seen| - 1])
      + (if last.Delivered? && last.message.HttpRequest? then last.message.body else [])
  }

  /**
   Whatever the chunking, and however often the application goes on receiving, it gets a prefix of the body, and
   `limit` bytes at most; as long as what has come in fits, it gets all of that.
   */
  lemma {:induction false} DeliveredWithinLimit(seen: seq<Received>, messages: seq<Incoming>, limit: int)
    requires Behind(seen, messages, limit)
    ensures var come := messages[..Min(|seen|, |messages|)];
            && |DeliveredBody(seen)| <= Max(limit, 0) && DeliveredBody(seen) <= BodyOf(come)
            && (|BodyOf(come)| <= limit ==> DeliveredBody(seen) == BodyOf(come))
  {
    if seen != [] {
      var n := |seen| - 1;
      DeliveredWithinLimit(seen[..n], messages, limit);
      if n < |messages| {
        assert messages[..n + 1][..n] == messages[..n];
        TotalIsItsLength(messages[..n]);
        TotalIsItsLength(messages[..n + 1]);
        assert Total(messages[..n + 1]) == Total(messages[..n]) + Size(messages[n]);
      } else {
        assert DeliveredBody(seen) == DeliveredBody(seen[..n]);
      }
    }
  }

  lemma {:induction false} TotalGrows(messages: seq<Incoming>, i: nat)
    requires i <= |messages|
    ensures Total(messages[..i]) <= Total(messages)
    decreases |messages|
  {
    if i < |messages| {
      var rest := messages[..|messages| - 1];
      TotalGrows(rest, i);
      assert rest[..i] == messages[..i];
    } else {
      assert messages[..i] == messages;
    }
  }

  /** A body passes message by message unchanged if and only if it is within the limit (or there is no body). */
  lemma {:induction false} WholeBodyPassesIffItFits(messages: seq<Incoming>, limit: int)
    requires forall i :: 0 <= i < |messages| ==> messages[i].HttpRequest?
    ensures (forall i :: 0 <= i < |messages| ==> Gated(messages, limit, i) == Delivered(messages[i]))
            <==> messages == [] || |BodyOf(messages)| <= limit
  {
    TotalIsItsLength(messages);
    if messages != [] {
      var last := |messages| - 1;
      assert messages[..last + 1] == messages;
      assert Gated(messages, limit, last).TooLarge? <==> Total(messages) > limit;
      forall i | 0 <= i < |messages| && Total(messages) <= limit
        ensures Gated(messages, limit, i) == Delivered(messages[i])
      {
        TotalGrows(messages, i + 1);
      }
    }
  }

  /** Once over the limit, exactly the further body messages raise again. */
  lemma {:induction false} RaisesForever(messages: seq<Incoming>, limit: int, i: nat, j: nat)
    requires i < j < |messages| && Gated(messages, limit, i).TooLarge?
    ensures Gated(messages, limit, j) == if messages[j].HttpRequest? then TooLarge else Delivered(messages[j])
  {
    TotalGrows(messages[..j + 1], i + 1);
    assert messages[..j + 1][..i + 1] == messages[..i + 1];
  }

  // ---------------------------------------------------------------- one request

  /** The server's side of one request, and the two variables the wrapped functions share. */
  class Exchange {
    const limit: int
    const messages: seq<Incoming>
    var taken: nat
    var sent: seq<Outgoing>
    var receivedBytes: int
    var responseStarted: bool

    constructor (limit: int, messages: seq<Incoming>)
      ensures this.limit == limit && this.messages == messages
      ensures Valid() && taken == 0 && sent == []
    {
      this.limit, this.messages := limit, messages;
      taken, sent, receivedBytes, responseStarted := 0, [], 0, false;
    }

    ghost predicate Valid()
      reads this
    {
      && taken <= |messages|
      && receivedBytes == Total(messages[..taken])
      && (responseStarted <==> Started(sent))
    }

    /** The gate in front of the server's `receive`; a client that has nothing more to send is gone. */
    method LimitedReceive() returns (r: Received)
      requires Valid()
      modifies this`taken, this`receivedBytes
      ensures Valid()
      ensures old(taken) < |messages| ==> taken == old(taken) + 1 && r == Gated(messages, limit, old(taken))
      ensures old(taken) == |messages| ==> taken == old(taken) && r == Delivered(Disconnect)
    {
      if taken == |messages| {
        return Delivered(Disconnect);
      }
      var message := messages[taken];
      taken := taken + 1;
      assert messages[..taken][..taken - 1] == messages[..taken - 1];
      if message.HttpRequest? {
        receivedBytes := receivedBytes + |message.body|;
        if receivedBytes > limit {
          return TooLarge;
        }
      }
      r := Delivered(message);
    }

    method SendWrapper(message: Outgoing)
      requires Valid()
      modifies this`sent, this`responseStarted
      ensures Valid() && sent == old(sent) + [message]
    {
      if message.Start? {
        responseStarted := true;
      }
      sent := sent + [message];
      assert sent[..|sent| - 1] == old(sent);
    }
  }

  predicate Started(sent: seq<Outgoing>) {
    sent != [] && (sent[|sent| - 1].Start? || Started(sent[..|sent| - 1]))
  }

  lemma {:induction false} StartedMeans(sent: seq<Outgoing>)
    ensures Started(sent) <==> exists i :: 0 <= i < |sent| && sent[i].Start?
  {
    if sent != [] {
      var front := sent[..|sent| - 1];
      StartedMeans(front);
      assert forall i :: 0 <= i < |front| ==> front[i] == sent[i];
    }
  }

  /** How far an application has come: what it saw, what it sent, and how it ended, if it has. */
  datatype Progress = Progress(seen: seq<Received>, sent: seq<Outgoing>, ended: Option<Ending>)

  function After(messages: seq<Incoming>, limit: int, script: seq<Step>): Progress {
    if script == [] then Progress([], [], None)
    else
      var p := After(messages, limit, script[..|script| - 1]);
      if p.ended.Some? then p
      else
        match script[|script| - 1]
        case Receive(patient) =>
          var r := Answer(messages, limit, |p.seen|);
          Progress(p.seen + [r], p.sent, if r.TooLarge? && !patient then Some(Oversize) else None)
        case Send(message) => p.(sent := p.sent + [message])
        case Reraise => p.(ended := Some(if TooLarge in p.seen then Oversize else Failed))
        case Fail => p.(ended := Some(Failed))
  }

  lemma {:induction false} EndedStays(messages: seq<Incoming>, limit: int, script: seq<Step>, k: nat)
    requires k <= |script| && After(messages, limit, script[..k]).ended.Some?
    ensures After(messages, limit, script) == After(messages, limit, script[..k])
    decreases |script|
  {
    if k == |script| {
      assert script[..k] == script;
    } else {
      var front := script[..|script| - 1];
      assert front[..k] == script[..k];
      EndedStays(messages, limit, front, k);
    }
  }

  /** All that the application means to send, if nothing ends it before. */
  function Sends(script: seq<Step>): seq<Outgoing> {
    if script == [] then [] else (if script[0].Send? then [script[0].message] else []) + Sends(script[1..])
  }

  lemma {:induction false} SendsAppend(script: seq<Step>, step: Step)
    ensures Sends(script + [step]) == Sends(script) + if step.Send? then [step.message] else []
  {
    if script == [] {
      assert [] + [step] == [step];
    } else {
      var head := if script[0].Send? then [script[0].message] else [];
      var last := if step.Send? then [step.message] else [];
      assert (script + [step])[1..] == script[1..] + [step];
      SendsAppend(script[1..], step);
      assert head + (Sends(script[1..]) + last) == (head + Sends(script[1..])) + last;
    }
  }

  lemma {:induction false} SendsPass(messages: seq<Incoming>, limit: int, script: seq<Step>)
    ensures var p := After(messages, limit, script);
            p.sent <= Sends(script) && (p.ended.None? ==> p.sent == Sends(script))
  {
    if script != [] {
      var front, last := script[..|script| - 1], script[|script| - 1];
      SendsPass(messages, limit, front);
      SendsAppend(front, last);
      assert front + [last] == script;
    }
  }

  lemma {:induction false} SeenIsGated(messages: seq<Incoming>, limit: int, script: seq<Step>)
    ensures Behind(After(messages, limit, script).seen, messages, limit)
  {
    if script != [] {
      SeenIsGated(messages, limit, script[..|script| - 1]);
    }
  }

  /** Every application sees the gated messages only, within the limit, and what it sends passes in its order. */
  lemma ProgressIsGated(messages: seq<Incoming>, limit: int, script: seq<Step>)
    ensures var p := After(messages, limit, script);
            && Behind(p.seen, messages, limit) && |DeliveredBody(p.seen)| <= Max(limit, 0)
            && p.sent <= Sends(script) && (p.ended.None? ==> p.sent == Sends(script))
  {
    SendsPass(messages, limit, script);
    SeenIsGated(messages, limit, script);
    DeliveredWithinLimit(After(messages, limit, script).seen, messages, limit);
  }

  /**
   An application ends with its first step that raises: an error of its own, a RequestTooLarge it does not catch, or
   one it raises again. Without such a step it returns.
   */
  lemma {:induction false} RaisingEnds(messages: seq<Incoming>, limit: int, script: seq<Step>)
    ensures var p := After(messages, limit, script);
            && (Fail in script || Reraise in script ==> p.ended.Some?)
            && (p.ended == Some(Failed) ==> Fail in script || (Reraise in script && TooLarge !in p.seen))
            && (p.ended == Some(Oversize) ==>
                  TooLarge in p.seen && (Receive(false) in script || Reraise in script))
            && p.ended != Some(Returned)
  {
    if script != [] {
      var front, last := script[..|script| - 1], script[|script| - 1];
      RaisingEnds(messages, limit, front);
      assert front + [last] == script;
    }
  }

  /** The exception comes from the gate: it escapes only after a body that is over the limit. */
  lemma {:induction false} OversizeIsTooMuch(messages: seq<Incoming>, limit: int, script: seq<Step>)
    ensures var p := After(messages, limit, script);
            (p.ended == Some(Oversize) ==> TooLarge in p.seen) && (TooLarge in p.seen ==> |BodyOf(messages)| > limit)
  {
    TotalIsItsLength(messages);
    if script != [] {
      OversizeIsTooMuch(messages, limit, script[..|script| - 1]);
      var i := |After(messages, limit, script[..|script| - 1]).seen|;
      if i < |messages| {
        TotalGrows(messages, i + 1);
      }
    }
  }

  /** Any run of any application behind the gate. */
  method RunApplication(x: Exchange, script: seq<Step>) returns (ending: Ending, ghost seen: seq<Received>)
    requires x.Valid() && x.taken == 0 && x.sent == []
    modifies x
    ensures x.Valid()
    ensures var p := After(x.messages, x.limit, script);
            && seen == p.seen && x.sent == p.sent && x.taken == Min(|seen|, |x.messages|)
            && ending == if p.ended.None? then Returned else p.ended.value
  {
    seen := [];
    var caught := false;
    assert script[..0] == [];
    for k := 0 to |script|
      invariant x.Valid() && x.taken == Min(|seen|, |x.messages|)
      invariant caught <==> TooLarge in seen
      invariant After(x.messages, x.limit, script[..k]) == Progress(seen, x.sent, None)
    {
      assert script[..k + 1][..k] == script[..k];
      match script[k] {
        case Receive(patient) =>
          var r := x.LimitedReceive();
          seen := seen + [r];
          if r.TooLarge? && !patient {
            EndedStays(x.messages, x.limit, script, k + 1);
            return Oversize, seen;
          }
          caught := caught || r.TooLarge?;
        case Send(message) =>
          x.SendWrapper(message);
        case Reraise =>
          EndedStays(x.messages, x.limit, script, k + 1);
          return if caught then Oversize else Failed, seen;
        case Fail =>
          EndedStays(x.messages, x.limit, script, k + 1);
          return Failed, seen;
      }
    }
    assert script[..|script|] == script;
    ending := Returned;
  }

  /**
   The middleware on an HTTP request. A Content-Length over the limit is answered 413 without the application; else
   the application runs, and a 413 is added exactly if RequestTooLarge escapes from it before any response start.
   */
  method Handle(x: Exchange, headers: seq<Header>, script: seq<Step>) returns (ending: Ending)
    requires x.Valid() && x.taken == 0 && x.sent == []
    modifies x
    ensures x.Valid()
    ensures var p := After(x.messages, x.limit, script);
            if ContentLength(headers).Some? && ContentLength(headers).value > x.limit
            then x.sent == [Start(413), Chunk([])] && x.taken == 0 && ending.Returned?
            else
              && (p.ended == Some(Oversize) && !(exists i :: 0 <= i < |p.sent| && p.sent[i].Start?) ==>
                    x.sent == p.sent + [Start(413), Chunk([])])
              && (!(p.ended == Some(Oversize) && !(exists i :: 0 <= i < |p.sent| && p.sent[i].Start?)) ==>
                    x.sent == p.sent)
              && ending == (if p.ended == Some(Failed) then Failed else Returned)
  {
    var length := ContentLength(headers);
    if length.Some? && length.value > x.limit {
      x.SendWrapper(Start(413));
      x.SendWrapper(Chunk([]));
      return Returned;
    }
    ghost var seen;
    ending, seen := RunApplication(x, script);
    StartedMeans(x.sent);
    if ending.Oversize? {
      if !x.responseStarted {
        x.SendWrapper(Start(413));
        x.SendWrapper(Chunk([]));
      }
      ending := Returned;
    }
  }
}
