/** The host side's `SignalSocket` (`www/src/hostPage.ts`): one relay
    socket bound to the room of one (phrase, day), the list of offers that
    wait for an answer, and the dispatcher that tells offer requests from
    answers by trying to decrypt. Browser callbacks (socket messages, ICE
    gathering, the answer timer, promise settlements) are explicit method
    calls; what the source sends, closes or hands to the page is recorded in
    fields. */
module Signaling {
  import opened Wrappers
  import opened Bytes
  import opened Json
  import opened Nacl
  import opened UtcDate
  import opened Util

  /** The identity of one connection attempt. Each `onOfferRequest` call
      makes one `RTCPeerConnection` and one `pendingAnswer` object; the
      source compares them by reference (`indexOf`), the model by number. */
  type AttemptId = nat

  /** `PendingAnswer`: the host's fresh key pair and the requester's public
      key; `id` also names the attempt's peer connection. */
  datatype PendingAnswer = PendingAnswer(id: AttemptId, myKey: KeyPair, theirPub: Bytes)

  function Ids(s: seq<PendingAnswer>): set<AttemptId> {
    set e | e in s :: e.id
  }

  predicate UniqueIds(s: seq<PendingAnswer>) {
    forall i, j :: 0 <= i < j < |s| ==> s[i].id != s[j].id
  }

  predicate NoDuplicates(s: seq<AttemptId>) {
    forall i, j :: 0 <= i < j < |s| ==> s[i] != s[j]
  }

  /* ------------------------------------------------------ list removal */

  /** `pendingAnswers.indexOf(entry)`: the first position holding the
      attempt, or -1. */
  function IndexOf(s: seq<PendingAnswer>, id: AttemptId): (k: int)
    ensures -1 <= k < |s|
    ensures k >= 0 ==> s[k].id == id && forall j :: 0 <= j < k ==> s[j].id != id
    ensures k == -1 <==> id !in Ids(s)
    decreases |s|
  {
    if s == [] then -1
    else if s[0].id == id then 0
    else
      var k := IndexOf(s[1..], id);
      assert Ids(s) == {s[0].id} + Ids(s[1..]) by {
        assert s == [s[0]] + s[1..];
      }
      if k == -1 then -1 else k + 1
  }

  /** `indexOf` followed by `splice(index, 1)` when the index is not -1: what
      `closePendingAnswer` and `onAnswerReceived` do to the list. */
  function RemoveId(s: seq<PendingAnswer>, id: AttemptId): (r: seq<PendingAnswer>)
    ensures id !in Ids(s) ==> r == s
    ensures id in Ids(s) ==> |r| == |s| - 1
  {
    var k := IndexOf(s, id);
    if k >= 0 then s[..k] + s[k + 1..] else s
  }

  /** The reference meaning of removal: keep every entry of another attempt,
      in order. */
  function Without(s: seq<PendingAnswer>, id: AttemptId): seq<PendingAnswer>
    decreases |s|
  {
    if s == [] then []
    else (if s[0].id == id then [] else [s[0]]) + Without(s[1..], id)
  }

  /** Removing an attempt that is not listed changes nothing. */
  lemma {:induction false} WithoutAbsent(s: seq<PendingAnswer>, id: AttemptId)
    requires forall i :: 0 <= i < |s| ==> s[i].id != id
    ensures Without(s, id) == s
    decreases |s|
  {
    if s != [] {
      WithoutAbsent(s[1..], id);
      assert s == [s[0]] + s[1..];
    }
  }

  /** Removal distributes over concatenation. */
  lemma {:induction false} WithoutAppend(a: seq<PendingAnswer>, b: seq<PendingAnswer>, id: AttemptId)
    ensures Without(a + b, id) == Without(a, id) + Without(b, id)
    decreases |a|
  {
    if a != [] {
      assert (a + b)[1..] == a[1..] + b;
      WithoutAppend(a[1..], b, id);
    } else {
      assert a + b == b;
    }
  }

  /** With unique attempt ids, index-and-splice removes exactly the entries
      of that attempt and leaves every other entry, in its order. */
  lemma RemoveIdIsWithout(s: seq<PendingAnswer>, id: AttemptId)
    requires UniqueIds(s)
    ensures RemoveId(s, id) == Without(s, id)
  {
    var k := IndexOf(s, id);
    if k < 0 {
      assert forall i :: 0 <= i < |s| ==> s[i].id != id by {
        forall i | 0 <= i < |s| ensures s[i].id != id {
          assert s[i] in s;
        }
      }
      WithoutAbsent(s, id);
    } else {
      var pre, post := s[..k], s[k + 1..];
      assert s == pre + [s[k]] + post;
      assert forall i :: 0 <= i < |post| ==> post[i].id != id by {
        forall i | 0 <= i < |post| ensures post[i].id != id {
          assert post[i] == s[k + 1 + i];
        }
      }
      WithoutAbsent(pre, id);
      WithoutAbsent(post, id);
      WithoutAppend(pre + [s[k]], post, id);
      WithoutAppend(pre, [s[k]], id);
      assert Without([s[k]], id) == [] by {
        assert [s[k]][1..] == [];
      }
      calc {
        Without(s, id);
        Without(pre + [s[k]] + post, id);
        Without(pre + [s[k]], id) + Without(post, id);
        Without(pre, id) + Without([s[k]], id) + Without(post, id);
        { assert Without(pre, id) == pre && Without(post, id) == post; }
        pre + [] + post;
        { assert pre + [] == pre; }
        pre + post;
        RemoveId(s, id);
      }
    }
  }

  lemma {:induction false} WithoutIds(s: seq<PendingAnswer>, id: AttemptId)
    requires UniqueIds(s)
    ensures Ids(Without(s, id)) == Ids(s) - {id}
    ensures UniqueIds(Without(s, id))
    decreases |s|
  {
    if s != [] {
      assert s == [s[0]] + s[1..];
      assert Ids(s) == {s[0].id} + Ids(s[1..]);
      assert UniqueIds(s[1..]) by {
        forall i, j | 0 <= i < j < |s[1..]| ensures s[1..][i].id != s[1..][j].id {
          assert s[1..][i] == s[i + 1] && s[1..][j] == s[j + 1];
        }
      }
      WithoutIds(s[1..], id);
      assert s[0].id !in Ids(s[1..]) by {
        forall e | e in s[1..] ensures e.id != s[0].id {
          var j :| 0 <= j < |s[1..]| && s[1..][j] == e;
          assert s[j + 1] == e;
        }
      }
      var rest := Without(s[1..], id);
      if s[0].id != id {
        assert Without(s, id) == [s[0]] + rest;
        assert Ids([s[0]] + rest) == {s[0].id} + Ids(rest) by {
          assert forall e :: e in [s[0]] + rest <==> e == s[0] || e in rest;
        }
        forall i, j | 0 <= i < j < |[s[0]] + rest| ensures ([s[0]] + rest)[i].id != ([s[0]] + rest)[j].id {
          if i == 0 {
            assert ([s[0]] + rest)[j] == rest[j - 1];
            assert rest[j - 1] in rest;
          }
        }
      }
    }
  }

  /** Removing an attempt from a list with unique ids: the attempt is gone,
      every other attempt stays, the ids stay unique, and removing it again
      changes nothing (`closePendingAnswer` is idempotent). */
  lemma RemoveIdSpec(s: seq<PendingAnswer>, id: AttemptId)
    requires UniqueIds(s)
    ensures Ids(RemoveId(s, id)) == Ids(s) - {id}
    ensures UniqueIds(RemoveId(s, id))
    ensures RemoveId(RemoveId(s, id), id) == RemoveId(s, id)
  {
    RemoveIdIsWithout(s, id);
    WithoutIds(s, id);
  }

  /* ------------------------------------------------------------ dispatch */

  /** `answerDecrypted(data, entry.myKey.privateKey, entry.theirPub)`. */
  function TryAnswer(p: Primitives, data: string, e: PendingAnswer): (r: Option<Json>)
    ensures !Framed(data, BoxNonceLength) ==> r.None?
    ensures r.Some? ==> BoxOpens(p, Base64.Decode(data).value, e.myKey.privateKey, e.theirPub)
    ensures r.Some? ==> Member(r.value, "sdp").Some? && Member(r.value, "type").Some?
  {
    AnswerDecrypted(p, data, e.myKey.privateKey, e.theirPub)
  }

  /** The `for ... of` loop with `break`: the first pending answer, in list
      order, whose keys decrypt the message, with the decrypted answer. */
  function FirstAnswer(p: Primitives, data: string, s: seq<PendingAnswer>): (r: Option<(nat, Json)>)
    ensures r.Some? ==> r.value.0 < |s| && TryAnswer(p, data, s[r.value.0]) == Some(r.value.1)
    ensures r.Some? ==> forall j :: 0 <= j < r.value.0 ==> TryAnswer(p, data, s[j]).None?
    ensures r.None? <==> forall j :: 0 <= j < |s| ==> TryAnswer(p, data, s[j]).None?
    decreases |s|
  {
    if s == [] then None
    else match TryAnswer(p, data, s[0])
      case Some(a) => Some((0, a))
      case None =>
        match FirstAnswer(p, data, s[1..])
        case None => None
        case Some((k, a)) => Some((k + 1, a))
  }

  /** Where the dispatcher sends a message. */
  datatype Route = NewRequest(theirPub: Bytes) | MatchedAnswer(index: nat, answer: Json) | Dropped

  /** The `onmessage` decision: an offer request under the socket's key wins;
      otherwise the first pending answer whose keys decrypt the message;
      otherwise the message is dropped. */
  function Dispatch(p: Primitives, phrase: string, date: Date, password: string,
                    pending: seq<PendingAnswer>, data: string): (r: Route)
    requires ValidDate(date)
    ensures r.NewRequest? <==> OfferRequestDecrypted(p, data, phrase, date, password).Some?
    ensures r.NewRequest? ==> r.theirPub == OfferRequestDecrypted(p, data, phrase, date, password).value
    ensures r.MatchedAnswer? ==>
      && r.index < |pending|
      && TryAnswer(p, data, pending[r.index]) == Some(r.answer)
      && forall j :: 0 <= j < r.index ==> TryAnswer(p, data, pending[j]).None?
    ensures r.Dropped? <==>
      && OfferRequestDecrypted(p, data, phrase, date, password).None?
      && forall j :: 0 <= j < |pending| ==> TryAnswer(p, data, pending[j]).None?
  {
    match OfferRequestDecrypted(p, data, phrase, date, password)
    case Some(pub) => NewRequest(pub)
    case None =>
      match FirstAnswer(p, data, pending)
      case Some((k, a)) => MatchedAnswer(k, a)
      case None => Dropped
  }

  /** A message that decrypts as an offer request never reaches the pending
      answers: the dispatch is the same whatever they are. */
  lemma RequestShadowsAnswers(p: Primitives, phrase: string, date: Date, password: string,
                              s1: seq<PendingAnswer>, s2: seq<PendingAnswer>, data: string)
    requires ValidDate(date)
    requires OfferRequestDecrypted(p, data, phrase, date, password).Some?
    ensures Dispatch(p, phrase, date, password, s1, data) == Dispatch(p, phrase, date, password, s2, data)
  {
  }

  /* -------------------------------------------------------------- socket */

  class SignalSocket {
    const nacl: Primitives
    const phrase: string
    const date: Date
    const password: string
    /** The room the socket's relay connection is bound to. */
    const roomName: string

    /** `pendingAnswers`: offers sent and waiting for an answer. */
    var pendingAnswers: seq<PendingAnswer>
    /** Every `pendingAnswer` object `onOfferRequest` made, by attempt id:
        what the callbacks registered on each connection refer to. */
    var attempts: seq<PendingAnswer>
    /** Messages passed to `ws.send`. */
    var outbox: seq<string>
    /** Attempts whose answer timeout is scheduled and has not fired. */
    var timers: set<AttemptId>
    /** Attempts whose `setRemoteDescription(answer)` has not settled. */
    var settingRemote: map<AttemptId, Json>
    /** Connections handed to the page through `onNewClient`. */
    var newClients: seq<AttemptId>
    /** Attempts whose end-of-candidates event has fired. */
    ghost var gathered: set<AttemptId>
    /** Every `peerConn.close()` call, in order. */
    ghost var closed: seq<AttemptId>

    /** The registry invariant. Each gathered attempt is in at most one of:
        waiting in the list, awaiting its remote description, connected,
        closed; the list never holds an attempt twice; no connection is
        closed twice. */
    ghost predicate Valid()
      reads this
    {
      && ValidDate(date)
      && (forall i :: 0 <= i < |attempts| ==> attempts[i].id == i)
      && (forall id :: id in gathered ==> id < |attempts|)
      && (forall e :: e in pendingAnswers ==> e.id in gathered && e.id < |attempts| && attempts[e.id] == e)
      && UniqueIds(pendingAnswers)
      && timers <= gathered
      && settingRemote.Keys <= gathered
      && (forall id :: id in closed ==> id in gathered)
      && (forall id :: id in newClients ==> id in gathered)
      && Ids(pendingAnswers) !! settingRemote.Keys
      && (forall id :: id in closed ==> id !in Ids(pendingAnswers) && id !in settingRemote && id !in newClients)
      && (forall id :: id in newClients ==> id !in Ids(pendingAnswers) && id !in settingRemote)
      && NoDuplicates(closed)
      && NoDuplicates(newClients)
    }

    /** The class constructor: a socket already open on the room of
        `(phrase, date)`, with nothing pending. */
    constructor (p: Primitives, phrase: string, date: Date, password: string)
      requires ValidDate(date)
      ensures Valid()
      ensures this.nacl == p && this.phrase == phrase && this.date == date && this.password == password
      ensures roomName == SignalRoomName(p, phrase, date)
      ensures pendingAnswers == [] && attempts == [] && outbox == [] && timers == {}
      ensures settingRemote == map[] && newClients == [] && gathered == {} && closed == []
    {
      this.nacl := p;
      this.phrase := phrase;
      this.date := date;
      this.password := password;
      this.roomName := SignalRoomName(p, phrase, date);
      pendingAnswers := [];
      attempts := [];
      outbox := [];
      timers := {};
      settingRemote := map[];
      newClients := [];
      gathered := {};
      closed := [];
    }

    /** `SignalSocket.create`: shifts the date's UTC year by `yearDiff` and
        opens the socket on the shifted day's room; `socketOpened` says whether the
        socket opened (`onopen`) or failed (`onerror`, the promise rejects). */
    static method Create(p: Primitives, phrase: string, d: Date, yearDiff: int, password: string, socketOpened: bool)
      returns (r: Option<SignalSocket>)
      requires ValidDate(d)
      ensures r.Some? <==> socketOpened
      ensures r.Some? ==> fresh(r.value) && r.value.Valid()
      ensures r.Some? ==> r.value.date == ShiftYears(d, yearDiff)
      ensures r.Some? ==> r.value.roomName == SignalRoomName(p, phrase, ShiftYears(d, yearDiff))
      ensures r.Some? ==> r.value.nacl == p && r.value.phrase == phrase && r.value.password == password
      ensures r.Some? ==> r.value.pendingAnswers == [] && r.value.attempts == [] && r.value.closed == []
      ensures r.Some? ==> r.value.outbox == [] && r.value.timers == {} && r.value.gathered == {}
      ensures r.Some? ==> r.value.settingRemote == map[] && r.value.newClients == []
    {
      var shifted := ShiftYears(d, yearDiff);
      if socketOpened {
        var s := new SignalSocket(p, phrase, shifted, password);
        r := Some(s);
      } else {
        r := None;
      }
    }

    /** `onOfferRequest(theirPub)`: makes the connection and the pending
        answer with a fresh key pair, and registers the callbacks. Nothing is
        added to the list yet. */
    method OnOfferRequest(theirPub: Bytes, myKey: KeyPair) returns (id: AttemptId)
      requires Valid()
      modifies this
      ensures Valid()
      ensures id == |old(attempts)| && attempts == old(attempts) + [PendingAnswer(id, myKey, theirPub)]
      ensures pendingAnswers == old(pendingAnswers) && outbox == old(outbox) && timers == old(timers)
      ensures settingRemote == old(settingRemote) && newClients == old(newClients)
      ensures gathered == old(gathered) && closed == old(closed)
    {
      id := |attempts|;
      attempts := attempts + [PendingAnswer(id, myKey, theirPub)];
    }

    /** `closePendingAnswer`: only if the attempt is still in the list, close
        its connection and remove it. */
    method ClosePendingAnswer(id: AttemptId)
      requires Valid()
      modifies this
      ensures Valid()
      ensures old(id in Ids(pendingAnswers)) ==>
        pendingAnswers == RemoveId(old(pendingAnswers), id) && closed == old(closed) + [id]
      ensures old(id !in Ids(pendingAnswers)) ==>
        pendingAnswers == old(pendingAnswers) && closed == old(closed)
      ensures id !in Ids(pendingAnswers)
      ensures attempts == old(attempts) && outbox == old(outbox) && timers == old(timers)
      ensures settingRemote == old(settingRemote) && newClients == old(newClients) && gathered == old(gathered)
    {
      var k := IndexOf(pendingAnswers, id);
      if k >= 0 {
        RemoveIdSpec(pendingAnswers, id);
        closed := closed + [id];
        pendingAnswers := pendingAnswers[..k] + pendingAnswers[k + 1..];
        RemovedEntryFacts(old(pendingAnswers), id);
      }
    }

    /** The null ICE candidate: the local description is final. If it is
        missing the handler throws before anything happens; otherwise the
        pending answer joins the list, its timeout is scheduled, and the
        encrypted offer is sent (unless `nacl.box` throws on a requester key
        of the wrong size, after the push and the timer). */
    method GatheringComplete(id: AttemptId, localDescription: Option<SessionDescription>, nonce: Bytes)
      requires Valid()
      requires id < |attempts| && id !in gathered
      modifies this
      ensures Valid()
      ensures gathered == old(gathered) + {id}
      ensures localDescription.None? ==>
        pendingAnswers == old(pendingAnswers) && timers == old(timers) && outbox == old(outbox)
      ensures localDescription.Some? ==>
        && pendingAnswers == old(pendingAnswers) + [attempts[id]]
        && timers == old(timers) + {id}
        && outbox == old(outbox) +
             match OfferEncrypted(nacl, localDescription.value, attempts[id].myKey, attempts[id].theirPub, nonce)
             case Some(m) => [m]
             case None => []
      ensures attempts == old(attempts) && settingRemote == old(settingRemote)
      ensures newClients == old(newClients) && closed == old(closed)
    {
      gathered := gathered + {id};
      if localDescription.Some? {
        var entry := attempts[id];
        assert id !in Ids(pendingAnswers);
        AppendFacts(pendingAnswers, entry);
        pendingAnswers := pendingAnswers + [entry];
        timers := timers + {id};
        var offer := OfferEncrypted(nacl, localDescription.value, entry.myKey, entry.theirPub, nonce);
        if offer.Some? {
          outbox := outbox + [offer.value];
        }
      }
    }

    /** The answer timeout fires: `closePendingAnswer`. After a matched
        answer the attempt is no longer listed and nothing happens. */
    method TimerFired(id: AttemptId)
      requires Valid()
      requires id in timers
      modifies this
      ensures Valid()
      ensures timers == old(timers) - {id}
      ensures old(id in Ids(pendingAnswers)) ==>
        pendingAnswers == RemoveId(old(pendingAnswers), id) && closed == old(closed) + [id]
      ensures old(id !in Ids(pendingAnswers)) ==>
        pendingAnswers == old(pendingAnswers) && closed == old(closed)
      ensures attempts == old(attempts) && outbox == old(outbox) && gathered == old(gathered)
      ensures settingRemote == old(settingRemote) && newClients == old(newClients)
    {
      timers := timers - {id};
      ClosePendingAnswer(id);
    }

    /** `createOffer` or `setLocalDescription` rejects: `closePendingAnswer`.
        This happens before the end-of-candidates event, when the attempt
        was never listed, so nothing is removed and nothing is closed. */
    method OfferCreationFailed(id: AttemptId)
      requires Valid()
      requires id < |attempts|
      modifies this
      ensures Valid()
      ensures id !in old(gathered) ==> pendingAnswers == old(pendingAnswers) && closed == old(closed)
      ensures old(id in Ids(pendingAnswers)) ==>
        pendingAnswers == RemoveId(old(pendingAnswers), id) && closed == old(closed) + [id]
      ensures old(id !in Ids(pendingAnswers)) ==>
        pendingAnswers == old(pendingAnswers) && closed == old(closed)
      ensures attempts == old(attempts) && outbox == old(outbox) && timers == old(timers)
      ensures settingRemote == old(settingRemote) && newClients == old(newClients) && gathered == old(gathered)
    {
      ClosePendingAnswer(id);
    }

    /** `onAnswerReceived`: removes the matched entry (only it) from the list
        and starts `setRemoteDescription(answer)`. */
    method OnAnswerReceived(entry: PendingAnswer, answer: Json)
      requires Valid()
      requires entry in pendingAnswers
      modifies this
      ensures Valid()
      ensures pendingAnswers == RemoveId(old(pendingAnswers), entry.id)
      ensures entry.id !in Ids(pendingAnswers)
      ensures settingRemote == old(settingRemote)[entry.id := answer]
      ensures attempts == old(attempts) && outbox == old(outbox) && timers == old(timers)
      ensures newClients == old(newClients) && gathered == old(gathered) && closed == old(closed)
    {
      var k := IndexOf(pendingAnswers, entry.id);
      RemoveIdSpec(pendingAnswers, entry.id);
      if k >= 0 {
        pendingAnswers := pendingAnswers[..k] + pendingAnswers[k + 1..];
        RemovedEntryFacts(old(pendingAnswers), entry.id);
      }
      settingRemote := settingRemote[entry.id := answer];
    }

    /** `setRemoteDescription` resolves: the connection goes to the page. */
    method RemoteDescriptionSet(id: AttemptId)
      requires Valid()
      requires id in settingRemote
      modifies this
      ensures Valid()
      ensures settingRemote == old(settingRemote) - {id} && newClients == old(newClients) + [id]
      ensures pendingAnswers == old(pendingAnswers) && attempts == old(attempts) && outbox == old(outbox)
      ensures timers == old(timers) && gathered == old(gathered) && closed == old(closed)
    {
      settingRemote := settingRemote - {id};
      newClients := newClients + [id];
    }

    /** `setRemoteDescription` rejects: the connection is closed. It was
        removed from the list when the answer matched, so this is its only
        close. */
    method RemoteDescriptionFailed(id: AttemptId)
      requires Valid()
      requires id in settingRemote
      modifies this
      ensures Valid()
      ensures settingRemote == old(settingRemote) - {id} && closed == old(closed) + [id]
      ensures pendingAnswers == old(pendingAnswers) && attempts == old(attempts) && outbox == old(outbox)
      ensures timers == old(timers) && gathered == old(gathered) && newClients == old(newClients)
    {
      settingRemote := settingRemote - {id};
      closed := closed + [id];
    }

    /** `ws.onmessage`: try the request key first; otherwise try the pending
        answers in list order and hand the first that decrypts to
        `onAnswerReceived`; otherwise do nothing. `freshKey` is the key pair
        `genKeyPair` would make for a new request. */
    method OnMessage(data: string, freshKey: KeyPair)
      requires Valid()
      modifies this
      ensures Valid()
      ensures match Dispatch(nacl, phrase, date, password, old(pendingAnswers), data)
        case NewRequest(pub) =>
          && attempts == old(attempts) + [PendingAnswer(|old(attempts)|, freshKey, pub)]
          && pendingAnswers == old(pendingAnswers) && settingRemote == old(settingRemote)
          && closed == old(closed)
        case MatchedAnswer(k, a) =>
          && pendingAnswers == RemoveId(old(pendingAnswers), old(pendingAnswers)[k].id)
          && settingRemote == old(settingRemote)[old(pendingAnswers)[k].id := a]
          && attempts == old(attempts) && closed == old(closed)
        case Dropped =>
          && pendingAnswers == old(pendingAnswers) && settingRemote == old(settingRemote)
          && attempts == old(attempts) && closed == old(closed)
      ensures outbox == old(outbox) && timers == old(timers) && newClients == old(newClients)
      ensures gathered == old(gathered)
    {
      var request := OfferRequestDecrypted(nacl, data, phrase, date, password);
      if request.Some? {
        var _ := OnOfferRequest(request.value, freshKey);
      } else {
        var i := 0;
        while i < |pendingAnswers|
          invariant 0 <= i <= |pendingAnswers|
          invariant pendingAnswers == old(pendingAnswers) && settingRemote == old(settingRemote)
          invariant attempts == old(attempts) && closed == old(closed) && outbox == old(outbox)
          invariant timers == old(timers) && newClients == old(newClients) && gathered == old(gathered)
          invariant forall j :: 0 <= j < i ==> TryAnswer(nacl, data, pendingAnswers[j]).None?
        {
          var entry := pendingAnswers[i];
          var answer := AnswerDecrypted(nacl, data, entry.myKey.privateKey, entry.theirPub);
          if answer.Some? {
            assert FirstAnswer(nacl, data, pendingAnswers) == Some((i, answer.value));
            OnAnswerReceived(entry, answer.value);
            break;
          }
          i := i + 1;
        }
      }
    }
  }

  /** Appending an entry of a new attempt keeps the ids unique and adds
      just that attempt. */
  lemma AppendFacts(s: seq<PendingAnswer>, e: PendingAnswer)
    requires UniqueIds(s) && e.id !in Ids(s)
    ensures UniqueIds(s + [e])
    ensures Ids(s + [e]) == Ids(s) + {e.id}
    ensures forall x :: x in s + [e] <==> x in s || x == e
  {
    forall i | 0 <= i < |s| ensures s[i].id != e.id {
      assert s[i] in s;
    }
  }

  /** What removal keeps: every other attempt, and no entry that was not
      there before. */
  lemma RemovedEntryFacts(before: seq<PendingAnswer>, id: AttemptId)
    requires UniqueIds(before)
    ensures Ids(RemoveId(before, id)) == Ids(before) - {id}
    ensures forall e :: e in RemoveId(before, id) ==> e in before
  {
    RemoveIdSpec(before, id);
    RemoveIdIsWithout(before, id);
    WithoutSubset(before, id);
  }

  lemma {:induction false} WithoutSubset(s: seq<PendingAnswer>, id: AttemptId)
    ensures forall e :: e in Without(s, id) ==> e in s
    decreases |s|
  {
    if s != [] {
      WithoutSubset(s[1..], id);
      assert s == [s[0]] + s[1..];
    }
  }
}
