/** The computations of `HostPage` (`www/src/hostPage.ts`) outside the
    socket: the random phrase, the shareable client URL, and the dates of
    the three signal sockets the page opens. */
module HostPage {
  import opened Decimal
  import opened UtcDate
  import opened Util

  /* ------------------------------------------------------------- phrase */

  /** One element of a `Uint16Array`, as `crypto.getRandomValues` fills it. */
  type Uint16 = x: int | 0 <= x < 0x1_0000

  /** `arr[0] % 499 + 2`: the phrase's leading number. */
  function PhraseNumber(r0: Uint16): (n: nat)
    ensures 2 <= n <= 500
  {
    r0 % 499 + 2
  }

  /** Every number from 2 to 500 can come out. */
  lemma PhraseNumberOnto(n: nat)
    requires 2 <= n <= 500
    ensures PhraseNumber(n - 2) == n
  {
  }

  /** `words[r % words.length]`: a word of the list. On an empty list the
      index is `NaN` and JavaScript concatenates the text `undefined`. */
  function WordAt(words: seq<string>, r: Uint16): (w: string)
    ensures |words| > 0 ==> w in words
    ensures |words| == 0 ==> w == "undefined"
  {
    if |words| == 0 then "undefined" else words[r % |words|]
  }

  /** `regeneratePhrase`: `<number> <adjective> <noun>` from three random
      16-bit values and the word lists of `words.json`. */
  function RegeneratePhrase(adjectives: seq<string>, nouns: seq<string>, r0: Uint16, r1: Uint16, r2: Uint16): (phrase: string)
    ensures var k := |NatString(PhraseNumber(r0))|;
      && 1 <= k < |phrase| && phrase[k] == ' '
      && forall i :: 0 <= i < k ==> IsDigit(phrase[i])
  {
    NatString(PhraseNumber(r0)) + " " + WordAt(adjectives, r1) + " " + WordAt(nouns, r2)
  }

  /** The text of `s` before the first `c` (all of `s` if there is none). */
  function UpTo(s: string, c: char): (r: string)
    ensures |r| <= |s| && r == s[..|r|]
    ensures forall i :: 0 <= i < |r| ==> r[i] != c
    ensures |r| < |s| ==> s[|r|] == c
    decreases |s|
  {
    if s == [] || s[0] == c then [] else [s[0]] + UpTo(s[1..], c)
  }

  /** Text before a separator that does not occur in it is cut back out. */
  lemma {:induction false} UpToSeparated(a: string, c: char, rest: string)
    requires forall i :: 0 <= i < |a| ==> a[i] != c
    ensures UpTo(a + ([c] + rest), c) == a
    decreases |a|
  {
    if a != [] {
      assert (a + ([c] + rest))[1..] == a[1..] + ([c] + rest);
      UpToSeparated(a[1..], c, rest);
    }
  }

  /** A phrase `<number> <rest>` splits at its first space. */
  lemma SplitAtFirstSpace(number: string, rest: string)
    requires forall i :: 0 <= i < |number| ==> IsDigit(number[i])
    ensures UpTo(number + " " + rest, ' ') == number
    ensures (number + " " + rest)[|number|..] == " " + rest
  {
    var s, tail := number + " " + rest, [' '] + rest;
    assert s == number + tail;
    assert s[|number|..] == tail;
    UpToSeparated(number, ' ', rest);
  }

  /** A regenerated phrase reads back as its parts: the text before the
      first space is the decimal number, between 2 and 500, and the chosen
      words follow. */
  lemma RegeneratedPhraseParts(adjectives: seq<string>, nouns: seq<string>, r0: Uint16, r1: Uint16, r2: Uint16)
    ensures var phrase := RegeneratePhrase(adjectives, nouns, r0, r1, r2);
      var lead := UpTo(phrase, ' ');
      && lead == NatString(PhraseNumber(r0))
      && 2 <= ParseNat(lead) <= 500
      && phrase[|lead|..] == " " + WordAt(adjectives, r1) + " " + WordAt(nouns, r2)
  {
    var number := NatString(PhraseNumber(r0));
    var rest := WordAt(adjectives, r1) + " " + WordAt(nouns, r2);
    assert RegeneratePhrase(adjectives, nouns, r0, r1, r2) == number + " " + rest;
    SplitAtFirstSpace(number, rest);
    ParseNatString(PhraseNumber(r0));
  }

  /* ---------------------------------------------------------- client URL */

  /** `s.lastIndexOf(c)`. */
  function LastIndexOf(s: string, c: char): (k: int)
    ensures -1 <= k < |s|
    ensures k >= 0 ==> s[k] == c && forall j :: k < j < |s| ==> s[j] != c
    ensures k == -1 ==> forall j :: 0 <= j < |s| ==> s[j] != c
    decreases |s|
  {
    if s == [] then -1
    else if s[|s| - 1] == c then |s| - 1
    else LastIndexOf(s[..|s| - 1], c)
  }

  function Clamp(x: int, n: nat): (r: nat)
    ensures r <= n
    ensures 0 <= x <= n ==> r == x
  {
    if x < 0 then 0 else if x > n then n else x
  }

  /** JavaScript `s.substring(start, end)`: both ends are clamped to the
      string and swapped when out of order, so `substring(0, -1)` is `''`. */
  function Substring(s: string, start: int, end: int): (r: string)
    ensures start == 0 && 0 <= end <= |s| ==> r == s[..end]
    ensures start == 0 && end < 0 ==> r == ""
  {
    var a, b := Clamp(start, |s|), Clamp(end, |s|);
    if a <= b then s[a..b] else s[b..a]
  }

  /** `phrase.replace(/ /gi, '-')`: no space is left, each space became
      `-`, and every other character stays in place. */
  function DashedPhrase(phrase: string): (t: string)
    ensures |t| == |phrase| && ' ' !in t
    ensures forall i :: 0 <= i < |phrase| ==> t[i] == if phrase[i] == ' ' then '-' else phrase[i]
  {
    var t := ReplaceAll(phrase, ' ', '-');
    assert forall i :: 0 <= i < |t| ==> t[i] != ' ';
    t
  }

  /** `getClientUrl`: the page URL up to its last `#` (nothing at all when
      it has none), then `#` and the encoded phrase. */
  function GetClientUrl(href: string, phrase: string, encodeUriComponent: string -> string): (url: string)
    ensures var e := encodeUriComponent(DashedPhrase(phrase));
      && |e| < |url| && url[|url| - |e| - 1] == '#' && url[|url| - |e|..] == e
      && |url| <= |href| + 1 + |e|
  {
    var prefix := Substring(href, 0, LastIndexOf(href, '#'));
    var e := encodeUriComponent(DashedPhrase(phrase));
    var url := prefix + "#" + e;
    assert url[|url| - |e|..] == e;
    url
  }

  /** The fragment of the client URL, the text after its last `#`, is the
      encoded phrase; before it stands the page URL without its own
      fragment, or nothing when the page URL has no `#`. This needs only
      that the encoding leaves no `#` (`encodeURIComponent` writes `%23`). */
  lemma ClientUrlFragment(href: string, phrase: string, encodeUriComponent: string -> string)
    requires '#' !in encodeUriComponent(DashedPhrase(phrase))
    ensures var url := GetClientUrl(href, phrase, encodeUriComponent);
      var k := LastIndexOf(url, '#');
      && k >= 0
      && url[k + 1..] == encodeUriComponent(DashedPhrase(phrase))
      && url[..k] == (if '#' in href then href[..LastIndexOf(href, '#')] else "")
  {
    var url := GetClientUrl(href, phrase, encodeUriComponent);
    var e := encodeUriComponent(DashedPhrase(phrase));
    var prefix := Substring(href, 0, LastIndexOf(href, '#'));
    assert url == prefix + "#" + e;
    LastIndexOfSeparated(prefix, '#', e);
    assert url[|prefix| + 1..] == e;
    assert url[..|prefix|] == prefix;
    if '#' in href {
      var i :| 0 <= i < |href| && href[i] == '#';
    }
  }

  /** The last occurrence of a separator that the tail does not contain is
      the separator itself. */
  lemma {:induction false} LastIndexOfSeparated(a: string, c: char, e: string)
    requires c !in e
    ensures LastIndexOf(a + [c] + e, c) == |a|
    decreases |e|
  {
    var s := a + [c] + e;
    if e == [] {
      assert s[|s| - 1] == c;
    } else {
      var e' := e[..|e| - 1];
      assert s[|s| - 1] == e[|e| - 1];
      assert s[..|s| - 1] == a + [c] + e';
      assert c !in e' by {
        forall i | 0 <= i < |e'| ensures e'[i] != c {
          assert e'[i] == e[i];
        }
      }
      LastIndexOfSeparated(a, c, e');
    }
  }

  /** Building the client URL from a client URL swaps only the fragment:
      the text stays that of the original page URL before its fragment. */
  lemma ClientUrlReplacesFragment(href: string, phrase1: string, phrase2: string, encodeUriComponent: string -> string)
    requires '#' !in encodeUriComponent(DashedPhrase(phrase1))
    ensures GetClientUrl(GetClientUrl(href, phrase1, encodeUriComponent), phrase2, encodeUriComponent)
         == GetClientUrl(href, phrase2, encodeUriComponent)
  {
    var url := GetClientUrl(href, phrase1, encodeUriComponent);
    var prefix := Substring(href, 0, LastIndexOf(href, '#'));
    var e := encodeUriComponent(DashedPhrase(phrase1));
    assert url == prefix + ['#'] + e;
    LastIndexOfSeparated(prefix, '#', e);
    assert Substring(url, 0, LastIndexOf(url, '#')) == prefix;
  }

  /* -------------------------------------------------------- socket dates */

  /** The dates `startShare` gives its three sockets: a fresh `new Date()`
      shifted by `SignalSocket.create` with `yearDiff` -1, 0 and 1, which
      moves the UTC year, not the day. `now` is the current UTC day. */
  function HostSocketDates(now: Date): (ds: seq<Date>)
    requires ValidDate(now)
    ensures |ds| == 3 && ds[1] == now
    ensures forall i :: 0 <= i < 3 ==> ValidDate(ds[i])
    ensures ds[0].year == now.year - 1 && ds[2].year == now.year + 1
    ensures forall i :: 0 <= i < 3 ==>
      || (ds[i].month == now.month && ds[i].day == now.day)
      || (now.month == 1 && now.day == 29 && ds[i].month == 2 && ds[i].day == 1)
  {
    [ShiftYears(now, -1), ShiftYears(now, 0), ShiftYears(now, 1)]
  }

  /** A room-name preimage names its day: two days give two different
      texts to hash. */
  lemma RoomNamePreimageInjective(phrase: string, d1: Date, d2: Date)
    requires ValidDate(d1) && ValidDate(d2) && d1 != d2
    ensures RoomNamePreimage(phrase, d1) != RoomNamePreimage(phrase, d2)
  {
    SimpleUTCDateStringInjective(d1, d2);
    var s1, s2 := RoomNamePreimage(phrase, d1), RoomNamePreimage(phrase, d2);
    assert s1[|phrase| + 1..] == SimpleUTCDateString(d1);
    assert s2[|phrase| + 1..] == SimpleUTCDateString(d2);
  }

  /** As written, none of the host's three sockets has the date of the day
      before or the day after its own, and the text hashed into each
      socket's room name differs from the text of those days. */
  lemma HostSocketsMissAdjacentDays(phrase: string, now: Date)
    requires ValidDate(now)
    ensures NextDay(now) !in HostSocketDates(now) && PrevDay(now) !in HostSocketDates(now)
    ensures forall i :: 0 <= i < 3 ==>
      && RoomNamePreimage(phrase, HostSocketDates(now)[i]) != RoomNamePreimage(phrase, NextDay(now))
      && RoomNamePreimage(phrase, HostSocketDates(now)[i]) != RoomNamePreimage(phrase, PrevDay(now))
  {
    var ds := HostSocketDates(now);
    DayStepIsNoYearShift(now);
    forall i | 0 <= i < 3
      ensures RoomNamePreimage(phrase, ds[i]) != RoomNamePreimage(phrase, NextDay(now))
      ensures RoomNamePreimage(phrase, ds[i]) != RoomNamePreimage(phrase, PrevDay(now))
    {
      RoomNamePreimageInjective(phrase, ds[i], NextDay(now));
      RoomNamePreimageInjective(phrase, ds[i], PrevDay(now));
    }
  }

  /** The dates the comment "yesterday, today, and tomorrow" asks for. */
  function IntendedSocketDates(now: Date): (ds: seq<Date>)
    requires ValidDate(now)
    ensures |ds| == 3 && ds[1] == now
    ensures forall i :: 0 <= i < 3 ==> ValidDate(ds[i])
  {
    [PrevDay(now), now, NextDay(now)]
  }

  /** With day steps, host and client meet whenever their UTC days are at
      most one apart, whichever of the two is ahead: the relation is
      symmetric. */
  lemma IntendedSocketDatesSymmetric(now: Date, client: Date)
    requires ValidDate(now) && ValidDate(client)
    ensures client in IntendedSocketDates(now) <==> now in IntendedSocketDates(client)
  {
    PrevNextDay(now);
    PrevNextDay(client);
    assert client in IntendedSocketDates(now) <==> client == PrevDay(now) || client == now || client == NextDay(now);
    assert now in IntendedSocketDates(client) <==> now == PrevDay(client) || now == client || now == NextDay(client);
  }

  /** With day steps, one socket of the host hashes the same room-name text
      as the client exactly when the client's day is among the host's three. */
  lemma IntendedSocketsCoverClientDay(phrase: string, now: Date, client: Date)
    requires ValidDate(now) && ValidDate(client)
    ensures client in IntendedSocketDates(now) <==>
      exists i :: 0 <= i < 3 && RoomNamePreimage(phrase, IntendedSocketDates(now)[i]) == RoomNamePreimage(phrase, client)
  {
    var ds := IntendedSocketDates(now);
    if exists i :: 0 <= i < 3 && RoomNamePreimage(phrase, ds[i]) == RoomNamePreimage(phrase, client) {
      var i :| 0 <= i < 3 && RoomNamePreimage(phrase, ds[i]) == RoomNamePreimage(phrase, client);
      if ds[i] != client {
        RoomNamePreimageInjective(phrase, ds[i], client);
      }
      assert client in ds;
    }
    if client in ds {
      var i :| 0 <= i < 3 && ds[i] == client;
      assert RoomNamePreimage(phrase, ds[i]) == RoomNamePreimage(phrase, client);
    }
  }
}
