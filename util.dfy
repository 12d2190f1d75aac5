/** The wire format and naming helpers of `www/src/util.ts`: the UTC date
    string, the room name, the request key, and the encrypt/decrypt pairs
    for the three message kinds (offer request, offer, answer). Every
    decoder is total and returns `None` where the source returns `null` or
    catches an exception. Random nonces are parameters. */
module Util {
  import opened Wrappers
  import opened Bytes
  import opened Json
  import opened Nacl
  import opened UtcDate
  import Decimal
  import Base64

  /* ---------------------------------------------------------------- bytes */

  /** `concatBytes(a, b)`: a fresh buffer holding `a` followed by `b`. */
  function ConcatBytes(a: Bytes, b: Bytes): (r: Bytes)
    ensures |r| == |a| + |b|
    ensures r[..|a|] == a && r[|a|..] == b
  {
    a + b
  }

  /** `b.slice(0, -n)` and `b.slice(-n)` for `|b| >= n > 0`: everything but
      the trailing `n` bytes, and the trailing `n` bytes. */
  function SplitTail(b: Bytes, n: nat): (r: (Bytes, Bytes))
    requires |b| >= n
    ensures |r.1| == n && |r.0| == |b| - n
    ensures r.0 + r.1 == b
  {
    (b[..|b| - n], b[|b| - n..])
  }

  /** Framing round trip: splitting the trailing `|t|` bytes off
      `concatBytes(a, t)` gives back `a` and `t`. */
  lemma SplitConcat(a: Bytes, t: Bytes)
    ensures SplitTail(ConcatBytes(a, t), |t|) == (a, t)
  {
    var c := ConcatBytes(a, t);
    assert c[..|c| - |t|] == a;
  }

  /** The test every decoder starts with: the input is valid base64 and its
      bytes are at least `n + 1` long. */
  predicate Framed(enc: string, n: nat) {
    Base64.Decode(enc).Some? && |Base64.Decode(enc).value| >= n + 1
  }

  /* ----------------------------------------------------------- date string */

  /** `simpleUTCDateString(d)`: `DD-MM-YYYY` from the UTC day, the 1-based
      UTC month and the UTC year. */
  function SimpleUTCDateString(d: Date): (s: string)
    requires ValidDate(d)
    ensures |s| >= 7 && s[2] == '-' && s[5] == '-'
    ensures Decimal.IsDigit(s[0]) && Decimal.IsDigit(s[1]) && Decimal.IsDigit(s[3]) && Decimal.IsDigit(s[4])
    ensures s[6..] == Decimal.IntString(d.year)
  {
    var dayDash := Decimal.NatString(d.day) + "-";
    var dayPart := if |dayDash| == 2 then "0" + dayDash else dayDash;
    var month := d.month + 1;
    var monthPart := if month < 10 then "0" + Decimal.NatString(month) else Decimal.NatString(month);
    dayPart + monthPart + "-" + Decimal.IntString(d.year)
  }

  /** Reads a `DD-MM-YYYY` string back; the partner of `SimpleUTCDateString`. */
  function ParseDateString(s: string): (r: Option<Date>) {
    if |s| >= 7 && s[2] == '-' && s[5] == '-'
       && Decimal.IsDigit(s[0]) && Decimal.IsDigit(s[1]) && Decimal.IsDigit(s[3]) && Decimal.IsDigit(s[4])
       && Decimal.ParseInt(s[6..]).Some? && Decimal.ParseNat(s[3..5]) >= 1
    then Some(Date(Decimal.ParseInt(s[6..]).value, Decimal.ParseNat(s[3..5]) - 1, Decimal.ParseNat(s[..2])))
    else None
  }

  /** A day or month in `1..99` is written with exactly two digits that read
      back as the number. */
  lemma TwoDigits(n: nat, t: string)
    requires 1 <= n < 100
    requires t == (if n < 10 then "0" + Decimal.NatString(n) else Decimal.NatString(n))
    ensures |t| == 2 && Decimal.ParseNat(t) == n
  {
    Decimal.ParseNatString(n);
    if n < 10 {
      assert t[..1] == "0";
    }
  }

  /** Round trip: the date string determines the date. */
  lemma ParseSimpleUTCDateString(d: Date)
    requires ValidDate(d)
    ensures ParseDateString(SimpleUTCDateString(d)) == Some(d)
  {
    var s := SimpleUTCDateString(d);
    var month := d.month + 1;
    var dayDash := Decimal.NatString(d.day) + "-";
    var dayPart := if |dayDash| == 2 then "0" + dayDash else dayDash;
    var monthPart := if month < 10 then "0" + Decimal.NatString(month) else Decimal.NatString(month);
    var dayDigits := if d.day < 10 then "0" + Decimal.NatString(d.day) else Decimal.NatString(d.day);
    TwoDigits(d.day, dayDigits);
    TwoDigits(month, monthPart);
    assert dayPart == dayDigits + "-";
    assert s == dayDigits + "-" + monthPart + "-" + Decimal.IntString(d.year);
    assert s[..2] == dayDigits;
    assert s[3..5] == monthPart;
    Decimal.ParseIntString(d.year);
    assert Decimal.ParseNat(s[3..5]) == month;
    assert Decimal.ParseNat(s[..2]) == d.day;
  }

  /** Two different days never share a date string, so the room name and the
      request key rotate with the UTC day. */
  lemma SimpleUTCDateStringInjective(d1: Date, d2: Date)
    requires ValidDate(d1) && ValidDate(d2)
    requires d1 != d2
    ensures SimpleUTCDateString(d1) != SimpleUTCDateString(d2)
  {
    ParseSimpleUTCDateString(d1);
    ParseSimpleUTCDateString(d2);
  }

  /* ------------------------------------------------------------ room name */

  /** `s.replace(/c/g, '')`. */
  function RemoveAll(s: string, c: char): (r: string)
    ensures forall i :: 0 <= i < |r| ==> r[i] != c && r[i] in s
    decreases |s|
  {
    if s == [] then []
    else (if s[0] == c then [] else [s[0]]) + RemoveAll(s[1..], c)
  }

  /** Removing a character that does not occur among the first `k`
      characters keeps those `k` characters in front. */
  lemma {:induction false} RemoveAllKeepsPrefix(s: string, c: char, k: nat)
    requires k <= |s|
    requires forall i :: 0 <= i < k ==> s[i] != c
    ensures |RemoveAll(s, c)| >= k && RemoveAll(s, c)[..k] == s[..k]
    decreases k
  {
    if k > 0 {
      RemoveAllKeepsPrefix(s[1..], c, k - 1);
      assert RemoveAll(s, c) == [s[0]] + RemoveAll(s[1..], c);
    }
  }

  /** `s.replace(/a/g, b)` for single characters. */
  function ReplaceAll(s: string, a: char, b: char): (r: string)
    ensures |r| == |s|
    ensures forall i :: 0 <= i < |s| ==> r[i] == if s[i] == a then b else s[i]
  {
    seq(|s|, i requires 0 <= i < |s| => if s[i] == a then b else s[i])
  }

  /** The rewriting `signalRoomName` applies to the base64 text: drop `=`,
      then `+` to `_`, then `/` to `-`. None of the three is left. */
  function Rewrite(s: string): (r: string)
    ensures forall i :: 0 <= i < |r| ==> r[i] != '=' && r[i] != '+' && r[i] != '/'
  {
    var stripped := RemoveAll(s, '=');
    var underscored := ReplaceAll(stripped, '+', '_');
    assert forall i :: 0 <= i < |underscored| ==> underscored[i] != '=' && underscored[i] != '+';
    ReplaceAll(underscored, '/', '-')
  }

  /** The characters a room name may contain: `[A-Za-z0-9_-]`. */
  predicate IsRoomNameChar(c: char) {
    ('A' <= c <= 'Z') || ('a' <= c <= 'z') || ('0' <= c <= '9') || c == '_' || c == '-'
  }

  /** The string whose hash names the room: phrase first, then `-`, then
      the date. */
  function RoomNamePreimage(phrase: string, d: Date): (r: string)
    requires ValidDate(d)
    ensures |r| == |phrase| + 1 + |SimpleUTCDateString(d)|
    ensures r[..|phrase|] == phrase && r[|phrase|] == '-' && r[|phrase| + 1..] == SimpleUTCDateString(d)
  {
    phrase + "-" + SimpleUTCDateString(d)
  }

  /** `signalRoomName(phrase, d)`: the first 20 characters of the rewritten
      base64 of SHA-512 of `phrase + '-' + date`. It takes no password. */
  function SignalRoomName(p: Primitives, phrase: string, d: Date): (r: string)
    requires ValidDate(d)
    ensures |r| <= 20
  {
    Take(Rewrite(Base64.Encode(p.hash(p.utf8Bytes(RoomNamePreimage(phrase, d))))), 20)
  }

  /** A room name is exactly 20 characters of `[A-Za-z0-9_-]`, with no `=`:
      the 64-byte hash encodes to 88 characters whose first 86 are
      alphabet characters, so the first 20 are untouched by the padding
      removal and only `+` and `/` are rewritten. */
  lemma RoomNameShape(p: Primitives, phrase: string, d: Date)
    requires p.Sound() && ValidDate(d)
    ensures var r := SignalRoomName(p, phrase, d);
      |r| == 20 && '=' !in r && forall i :: 0 <= i < 20 ==> IsRoomNameChar(r[i])
    ensures var e := Base64.Encode(p.hash(p.utf8Bytes(RoomNamePreimage(phrase, d))));
      SignalRoomName(p, phrase, d) == ReplaceAll(ReplaceAll(e[..20], '+', '_'), '/', '-')
  {
    var h := p.hash(p.utf8Bytes(RoomNamePreimage(phrase, d)));
    var e := Base64.Encode(h);
    assert |e| == 88;
    Base64.EncodeAlphabet(h);
    RemoveAllKeepsPrefix(e, '=', 86);
    var stripped := RemoveAll(e, '=');
    var r := SignalRoomName(p, phrase, d);
    var direct := ReplaceAll(ReplaceAll(e[..20], '+', '_'), '/', '-');
    assert r == Take(ReplaceAll(ReplaceAll(stripped, '+', '_'), '/', '-'), 20);
    forall i | 0 <= i < 20
      ensures r[i] == direct[i] && IsRoomNameChar(r[i])
    {
      assert stripped[i] == e[i];
      assert Base64.IsAlphabetChar(e[i]);
    }
  }

  /* ---------------------------------------------------------- request key */

  /** The string whose hash keys offer requests: the date first, then the
      phrase, then `'-' + password` only for a non-empty password. */
  function RequestKeyPreimage(phrase: string, d: Date, password: string): (r: string)
    requires ValidDate(d)
    ensures var head := SimpleUTCDateString(d) + "-" + phrase;
      && |head| <= |r| && r[..|head|] == head
      && (password == "" <==> r == head)
      && (password != "" ==> r[|head|..] == "-" + password)
  {
    SimpleUTCDateString(d) + "-" + phrase + (if password != "" then "-" + password else "")
  }

  /** `offerRequestEncryptionKey(phrase, d, password)`. */
  function OfferRequestEncryptionKey(p: Primitives, phrase: string, d: Date, password: string): (key: Bytes)
    requires ValidDate(d)
    ensures p.Sound() ==> |key| == SecretboxKeyLength
  {
    Take(p.hash(p.utf8Bytes(RequestKeyPreimage(phrase, d, password))), SecretboxKeyLength)
  }

  /** The password enters the key: different passwords (the empty one
      included) give different hash inputs for the same phrase and day. The
      room name does not depend on the password at all. */
  lemma RequestKeyPreimageSeparatesPasswords(phrase: string, d: Date, pw1: string, pw2: string)
    requires ValidDate(d) && pw1 != pw2
    ensures RequestKeyPreimage(phrase, d, pw1) != RequestKeyPreimage(phrase, d, pw2)
    ensures RequestKeyPreimage(phrase, d, "") == SimpleUTCDateString(d) + "-" + phrase
  {
    var prefix := SimpleUTCDateString(d) + "-" + phrase;
    var s1, s2 := RequestKeyPreimage(phrase, d, pw1), RequestKeyPreimage(phrase, d, pw2);
    if pw1 == "" || pw2 == "" {
      assert |s1| != |s2|;
    } else {
      assert s1 == prefix + ("-" + pw1) && s2 == prefix + ("-" + pw2);
      assert s1[|prefix| + 1..] == pw1 && s2[|prefix| + 1..] == pw2;
    }
  }

  /* ------------------------------------------------------ session descriptions */

  /** An `RTCSessionDescriptionInit` as the host sends it. */
  datatype SessionDescription = SessionDescription(sdpType: string, sdp: string)

  /** The JSON object `JSON.stringify` sees for a session description: it
      carries both members the receiver tests. */
  function DescriptionJson(desc: SessionDescription): (j: Json)
    ensures Member(j, "sdp") == Some(JString(desc.sdp))
    ensures Member(j, "type") == Some(JString(desc.sdpType))
  {
    JObject(map["type" := JString(desc.sdpType), "sdp" := JString(desc.sdp)])
  }

  /** `JSON.parse(util.encodeUTF8(secret))`; `None` where either throws. */
  function ParseSecret(p: Primitives, secret: Bytes): (r: Option<Json>)
    ensures p.utf8String(secret).None? ==> r.None?
  {
    match p.utf8String(secret)
    case None => None
    case Some(text) => p.parse(text)
  }

  /** A stringified and UTF-8 encoded value parses back to itself. */
  lemma ParseSecretStringified(p: Primitives, j: Json)
    requires p.Sound()
    ensures ParseSecret(p, p.utf8Bytes(p.stringify(j))) == Some(j)
  {
    assert p.utf8String(p.utf8Bytes(p.stringify(j))) == Some(p.stringify(j));
  }

  /** `rtcSdpEncrypted`: `box(utf8(JSON), nonce) || nonce`; `None` where
      `nacl.box` throws on a badly sized key. */
  function RtcSdpEncrypted(p: Primitives, desc: SessionDescription, myPriv: Bytes, theirPub: Bytes, nonce: Bytes): (r: Option<Bytes>)
    ensures r.Some? <==> |nonce| == BoxNonceLength && |theirPub| == BoxPublicKeyLength && |myPriv| == BoxSecretKeyLength
    ensures r.Some? ==> |r.value| >= BoxNonceLength && SplitTail(r.value, BoxNonceLength).1 == nonce
  {
    match BoxSeal(p, p.utf8Bytes(p.stringify(DescriptionJson(desc))), nonce, theirPub, myPriv)
    case None => None
    case Some(sealed) => Some(ConcatBytes(sealed, nonce))
  }

  /** The box of a message with a trailing nonce opens under the keys: the
      message is long enough for `rtcSdpDecrypted` to split it, and
      `nacl.box.open` of the part before the nonce is not null. */
  predicate BoxOpens(p: Primitives, encBytes: Bytes, myPriv: Bytes, theirPub: Bytes) {
    && |encBytes| >= BoxNonceLength + 1
    && BoxOpen(p, SplitTail(encBytes, BoxNonceLength).0, SplitTail(encBytes, BoxNonceLength).1, theirPub, myPriv).Some?
  }

  /** `rtcSdpDecrypted`: splits the trailing nonce off, opens the box, and
      parses the JSON; `None` unless it has non-null `sdp` and `type`. */
  function RtcSdpDecrypted(p: Primitives, encBytes: Bytes, myPriv: Bytes, theirPub: Bytes): (r: Option<Json>)
    ensures |encBytes| < BoxNonceLength + 1 ==> r.None?
    ensures r.Some? ==> Member(r.value, "sdp").Some? && Member(r.value, "type").Some?
    ensures r.Some? ==> BoxOpens(p, encBytes, myPriv, theirPub)
  {
    if |encBytes| < BoxNonceLength + 1 then None
    else
      var (sealed, nonce) := SplitTail(encBytes, BoxNonceLength);
      match BoxOpen(p, sealed, nonce, theirPub, myPriv)
      case None => None
      case Some(secret) =>
        match ParseSecret(p, secret)
        case None => None
        case Some(json) =>
          if Member(json, "sdp").None? || Member(json, "type").None? then None else Some(json)
  }

  /** SDP framing round trip: what `rtcSdpEncrypted` sealed from one key
      pair to another opens, with the pair swapped, to the description. */
  lemma RtcSdpRoundTrip(p: Primitives, desc: SessionDescription, a: KeyPair, b: KeyPair, nonce: Bytes)
    requires p.Sound() && IsKeyPair(p, a) && IsKeyPair(p, b) && |nonce| == BoxNonceLength
    ensures RtcSdpEncrypted(p, desc, a.privateKey, b.publicKey, nonce).Some?
    ensures RtcSdpDecrypted(p, RtcSdpEncrypted(p, desc, a.privateKey, b.publicKey, nonce).value, b.privateKey, a.publicKey)
            == Some(DescriptionJson(desc))
  {
    var j := DescriptionJson(desc);
    var m := p.utf8Bytes(p.stringify(j));
    var sealed := p.box(m, nonce, b.publicKey, a.privateKey);
    SplitConcat(sealed, nonce);
    assert p.boxOpen(sealed, nonce, a.publicKey, b.privateKey) == Some(m);
    assert p.utf8String(m) == Some(p.stringify(j));
    assert p.parse(p.stringify(j)) == Some(j);
  }

  /* --------------------------------------------------------------- answer */

  /** `answerEncrypted`: `base64(rtcSdpEncrypted(...))`. */
  function AnswerEncrypted(p: Primitives, answer: SessionDescription, myPriv: Bytes, theirPub: Bytes, nonce: Bytes): (r: Option<string>)
    ensures r.Some? <==> RtcSdpEncrypted(p, answer, myPriv, theirPub, nonce).Some?
  {
    match RtcSdpEncrypted(p, answer, myPriv, theirPub, nonce)
    case None => None
    case Some(b) => Some(Base64.Encode(b))
  }

  /** `answerDecrypted`: `None` on bad base64 or whatever `rtcSdpDecrypted`
      rejects. */
  function AnswerDecrypted(p: Primitives, enc: string, myPriv: Bytes, theirPub: Bytes): (r: Option<Json>)
    ensures !Framed(enc, BoxNonceLength) ==> r.None?
    ensures r.Some? ==> BoxOpens(p, Base64.Decode(enc).value, myPriv, theirPub)
    ensures r.Some? ==> Member(r.value, "sdp").Some? && Member(r.value, "type").Some?
  {
    match Base64.Decode(enc)
    case None => None
    case Some(encBytes) => RtcSdpDecrypted(p, encBytes, myPriv, theirPub)
  }

  /** `answerDecrypted(answerEncrypted(sdp, privA, pubB), privB, pubA)`
      returns the description. */
  lemma AnswerRoundTrip(p: Primitives, desc: SessionDescription, a: KeyPair, b: KeyPair, nonce: Bytes)
    requires p.Sound() && IsKeyPair(p, a) && IsKeyPair(p, b) && |nonce| == BoxNonceLength
    ensures AnswerEncrypted(p, desc, a.privateKey, b.publicKey, nonce).Some?
    ensures AnswerDecrypted(p, AnswerEncrypted(p, desc, a.privateKey, b.publicKey, nonce).value, b.privateKey, a.publicKey)
            == Some(DescriptionJson(desc))
  {
    RtcSdpRoundTrip(p, desc, a, b, nonce);
    Base64.DecodeEncode(RtcSdpEncrypted(p, desc, a.privateKey, b.publicKey, nonce).value);
  }

  /* ---------------------------------------------------------------- offer */

  /** `OfferResponse`: the parsed offer and the sender's public key. */
  datatype OfferResponse = OfferResponse(offer: Json, hostPublicKey: Bytes)

  /** `offerEncrypted`: `base64(sealed || nonce || myPub)`; `None` where
      `nacl.box` throws on a badly sized key. */
  function OfferEncrypted(p: Primitives, offer: SessionDescription, myKey: KeyPair, theirPub: Bytes, nonce: Bytes): (r: Option<string>)
    ensures r.Some? <==> RtcSdpEncrypted(p, offer, myKey.privateKey, theirPub, nonce).Some?
  {
    match RtcSdpEncrypted(p, offer, myKey.privateKey, theirPub, nonce)
    case None => None
    case Some(sealed) => Some(Base64.Encode(ConcatBytes(sealed, myKey.publicKey)))
  }

  /** `offerDecrypted`: the trailing public-key-length bytes are the
      sender's key, the rest is opened as an SDP message. */
  function OfferDecrypted(p: Primitives, enc: string, myPriv: Bytes): (r: Option<OfferResponse>)
    ensures !Framed(enc, BoxPublicKeyLength) ==> r.None?
    ensures r.Some? ==> r.value.hostPublicKey == SplitTail(Base64.Decode(enc).value, BoxPublicKeyLength).1
    ensures r.Some? ==> BoxOpens(p, SplitTail(Base64.Decode(enc).value, BoxPublicKeyLength).0, myPriv, r.value.hostPublicKey)
    ensures r.Some? ==> Member(r.value.offer, "sdp").Some? && Member(r.value.offer, "type").Some?
  {
    match Base64.Decode(enc)
    case None => None
    case Some(encBytes) =>
      if |encBytes| < BoxPublicKeyLength + 1 then None
      else
        var (sealed, theirPub) := SplitTail(encBytes, BoxPublicKeyLength);
        match RtcSdpDecrypted(p, sealed, myPriv, theirPub)
        case None => None
        case Some(sdp) => Some(OfferResponse(sdp, theirPub))
  }

  /** Offer round trip: the recipient recovers the description and the
      sender's public key. */
  lemma OfferRoundTrip(p: Primitives, desc: SessionDescription, a: KeyPair, b: KeyPair, nonce: Bytes)
    requires p.Sound() && IsKeyPair(p, a) && IsKeyPair(p, b) && |nonce| == BoxNonceLength
    ensures OfferEncrypted(p, desc, a, b.publicKey, nonce).Some?
    ensures OfferDecrypted(p, OfferEncrypted(p, desc, a, b.publicKey, nonce).value, b.privateKey)
            == Some(OfferResponse(DescriptionJson(desc), a.publicKey))
  {
    RtcSdpRoundTrip(p, desc, a, b, nonce);
    var sealed := RtcSdpEncrypted(p, desc, a.privateKey, b.publicKey, nonce).value;
    var framed := ConcatBytes(sealed, a.publicKey);
    Base64.DecodeEncode(framed);
    SplitConcat(sealed, a.publicKey);
  }

  /* -------------------------------------------------------- offer request */

  /** The plaintext of an offer request: UTF-8 of
      `JSON.stringify({ offerRequest: base64(pubKey) })`. */
  function OfferRequestPlaintext(p: Primitives, pubKey: Bytes): (m: Bytes)
    ensures p.Sound() ==>
      && ParseSecret(p, m).Some?
      && Member(ParseSecret(p, m).value, "offerRequest") == Some(JString(Base64.Encode(pubKey)))
  {
    var j := JObject(map["offerRequest" := JString(Base64.Encode(pubKey))]);
    assert Member(j, "offerRequest") == Some(JString(Base64.Encode(pubKey)));
    p.utf8Bytes(p.stringify(j))
  }

  /** `offerRequestEncrypted`: `base64(secretbox(plaintext, nonce, key) || nonce)`.
      Under sound primitives the key always has the size `nacl.secretbox`
      demands. */
  function OfferRequestEncrypted(p: Primitives, phrase: string, d: Date, pubKey: Bytes, password: string, nonce: Bytes): (r: string)
    requires ValidDate(d) && |nonce| == SecretboxNonceLength
    ensures Base64.Decode(r).Some?
  {
    var sealed := p.secretbox(OfferRequestPlaintext(p, pubKey), nonce, OfferRequestEncryptionKey(p, phrase, d, password));
    Base64.DecodeEncode(ConcatBytes(sealed, nonce));
    Base64.Encode(ConcatBytes(sealed, nonce))
  }

  /** The steps of `offerRequestDecrypted` after base64 decoding: split off
      the nonce, open the secretbox under `key`, decode UTF-8, parse JSON,
      read `offerRequest` and base64-decode it. */
  function OpenOfferRequest(p: Primitives, encBytes: Bytes, key: Bytes): (r: Option<Bytes>)
    ensures |encBytes| < SecretboxNonceLength + 1 ==> r.None?
    ensures r.Some? ==> RequestCarries(p, encBytes, key, r.value)
  {
    if |encBytes| < SecretboxNonceLength + 1 then None
    else
      var (sealed, nonce) := SplitTail(encBytes, SecretboxNonceLength);
      match SecretboxOpen(p, sealed, nonce, key)
      case None => None
      case Some(secret) =>
        match ParseSecret(p, secret)
        case None => None
        case Some(json) =>
          match Member(json, "offerRequest")
          case Some(JString(s)) => Base64.Decode(s)
          case _ => None
  }

  /** What an accepted offer request frame holds: the secretbox opens under
      `key`, the secret is UTF-8 JSON with a non-null `offerRequest` string
      member, and that member is the base64 of `pubKey`. */
  predicate RequestCarries(p: Primitives, encBytes: Bytes, key: Bytes, pubKey: Bytes) {
    && |encBytes| >= SecretboxNonceLength + 1
    && var (sealed, nonce) := SplitTail(encBytes, SecretboxNonceLength);
    && SecretboxOpen(p, sealed, nonce, key).Some?
    && ParseSecret(p, SecretboxOpen(p, sealed, nonce, key).value).Some?
    && var member := Member(ParseSecret(p, SecretboxOpen(p, sealed, nonce, key).value).value, "offerRequest");
    && member.Some? && member.value.JString?
    && Base64.Decode(member.value.s) == Some(pubKey)
  }

  /** `offerRequestDecrypted`: `None` on bad base64, a short message, a
      failed secretbox, bad UTF-8 or JSON, a missing `offerRequest` member,
      or a member that is not valid base64. */
  function OfferRequestDecrypted(p: Primitives, enc: string, phrase: string, d: Date, password: string): (r: Option<Bytes>)
    requires ValidDate(d)
    ensures !Framed(enc, SecretboxNonceLength) ==> r.None?
    ensures r.Some? ==>
      RequestCarries(p, Base64.Decode(enc).value, OfferRequestEncryptionKey(p, phrase, d, password), r.value)
  {
    match Base64.Decode(enc)
    case None => None
    case Some(encBytes) => OpenOfferRequest(p, encBytes, OfferRequestEncryptionKey(p, phrase, d, password))
  }

  lemma OpenOfferRequestSealed(p: Primitives, pubKey: Bytes, key: Bytes, nonce: Bytes)
    requires p.Sound() && |nonce| == SecretboxNonceLength && |key| == SecretboxKeyLength
    ensures OpenOfferRequest(p, ConcatBytes(p.secretbox(OfferRequestPlaintext(p, pubKey), nonce, key), nonce), key)
            == Some(pubKey)
  {
    var j := JObject(map["offerRequest" := JString(Base64.Encode(pubKey))]);
    var m := OfferRequestPlaintext(p, pubKey);
    var sealed := p.secretbox(m, nonce, key);
    SplitConcat(sealed, nonce);
    assert p.secretboxOpen(sealed, nonce, key) == Some(m);
    assert p.utf8String(m) == Some(p.stringify(j));
    assert p.parse(p.stringify(j)) == Some(j);
    assert Member(j, "offerRequest") == Some(JString(Base64.Encode(pubKey)));
    Base64.DecodeEncode(pubKey);
  }

  /** Offer request round trip: with the same phrase, day and password the
      requester's public key comes back. */
  lemma OfferRequestRoundTrip(p: Primitives, phrase: string, d: Date, pubKey: Bytes, password: string, nonce: Bytes)
    requires p.Sound() && ValidDate(d) && |nonce| == SecretboxNonceLength
    ensures OfferRequestDecrypted(p, OfferRequestEncrypted(p, phrase, d, pubKey, password, nonce), phrase, d, password)
            == Some(pubKey)
  {
    var key := OfferRequestEncryptionKey(p, phrase, d, password);
    var framed := ConcatBytes(p.secretbox(OfferRequestPlaintext(p, pubKey), nonce, key), nonce);
    Base64.DecodeEncode(framed);
    OpenOfferRequestSealed(p, pubKey, key, nonce);
  }
}
