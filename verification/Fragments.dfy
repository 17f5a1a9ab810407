/**
  The Wi-Fi name and restaurant-id channels of bluetask.go: numbered fragments of one message arrive in advertisements
  that may be lost, repeated or reordered, are put together in order, decoded and decrypted.
 */
module Fragments {
  import opened Bytes
  import opened Aes

  /** How a complete message is opened: base64, then the cipher under the shared key. */
  datatype Link = Link(decode: bytes -> bytes, cipher: Cipher, key: bytes)

  function Opened(link: Link, message: bytes): Decryption {
    Decrypted(link.cipher, link.decode(message), link.key)
  }

  /** The fragments put together so far, the number expected next (a byte), and what was received. */
  datatype Channel = Channel(buffer: bytes, expected: byte, done: bool, text: bytes)

  const START: Channel := Channel([], 1, false, [])

  /** One advertisement: how many fragments there are, which one this is, and its part of the message. */
  datatype Advert = Advert(total: byte, index: byte, payload: bytes)

  function Appended(ch: Channel, a: Advert): Channel {
    if a.index == ch.expected then ch.(buffer := ch.buffer + a.payload, expected := (ch.expected + 1) % 256) else ch
  }

  function Received(ch: Channel, a: Advert, link: Link): Channel {
    if ch.done then ch
    else
      var next := Appended(ch, a);
      if (a.total + 1) % 256 != next.expected then next
      else
        match Opened(link, next.buffer)
        case Plain(text) => Channel([], 1, true, text)
        case _ => next.(buffer := [], expected := 1)
  }

  function Delivered(adverts: seq<Advert>, link: Link): Channel {
    if adverts == [] then START
    else Received(Delivered(adverts[..|adverts| - 1], link), adverts[|adverts| - 1], link)
  }

  // ----- what the sender does -----

  function Concat(parts: seq<bytes>): bytes {
    if parts == [] then [] else Concat(parts[..|parts| - 1]) + parts[|parts| - 1]
  }

  /** The fragments of a message that opens to a text: at least one, and few enough to be numbered by a byte. */
  ghost predicate Sent(parts: seq<bytes>, text: bytes, link: Link) {
    1 <= |parts| <= 255 && Opened(link, Concat(parts)) == Plain(text)
  }

  /** A message encrypted and encoded by the peer opens to its text. */
  lemma SentByPeer(parts: seq<bytes>, text: bytes, encode: bytes -> bytes, link: Link)
    requires Permutes(link.cipher) && (forall m: bytes :: link.decode(encode(m)) == m)
    requires 1 <= |parts| <= 255 && Concat(parts) == encode(Encrypted(link.cipher, text, link.key))
    ensures Sent(parts, text, link)
  {
    RoundTrip(link.cipher, text, link.key);
  }

  /** Every advertisement of the message carries its own fragment; any may be missing, repeated or out of order. */
  ghost predicate Schedule(adverts: seq<Advert>, parts: seq<bytes>) {
    forall i | 0 <= i < |adverts| ::
      && adverts[i].total == |parts|
      && (1 <= adverts[i].index <= |parts| ==> adverts[i].payload == parts[adverts[i].index - 1])
  }

  /** At these positions, one behind the other, fragments 1 to m arrived. */
  ghost predicate ArrivedAt(p: seq<nat>, adverts: seq<Advert>, m: nat) {
    && |p| == m
    && (forall k | 0 <= k < m :: p[k] < |adverts| && adverts[p[k]].index == k + 1)
    && (forall j, k | 0 <= j < k < m :: p[j] < p[k])
  }

  ghost predicate Arrived(adverts: seq<Advert>, m: nat) {
    exists p: seq<nat> :: ArrivedAt(p, adverts, m)
  }

  /** How many fragments, at most n, have arrived in order. */
  function Progress(adverts: seq<Advert>, n: nat): (p: nat)
    ensures p <= n
  {
    if adverts == [] then 0
    else
      var p := Progress(adverts[..|adverts| - 1], n);
      if p < n && adverts[|adverts| - 1].index == p + 1 then p + 1 else p
  }

  lemma {:induction false} ProgressArrived(adverts: seq<Advert>, n: nat, m: nat)
    requires m <= Progress(adverts, n)
    ensures Arrived(adverts, m)
    decreases |adverts|
  {
    if adverts == [] {
      assert ArrivedAt([], adverts, m);
    } else {
      var last := |adverts| - 1;
      var front := adverts[..last];
      if m <= Progress(front, n) {
        ProgressArrived(front, n, m);
        var p :| ArrivedAt(p, front, m);
        assert ArrivedAt(p, adverts, m);
      } else {
        ProgressArrived(front, n, m - 1);
        var p :| ArrivedAt(p, front, m - 1);
        assert ArrivedAt(p + [last], adverts, m);
      }
    }
  }

  lemma {:induction false} ArrivedProgress(adverts: seq<Advert>, n: nat, m: nat, p: seq<nat>)
    requires m <= n && ArrivedAt(p, adverts, m)
    ensures m <= Progress(adverts, n)
    decreases |adverts|
  {
    if m > 0 {
      assert p[m - 1] < |adverts|;
      var last := |adverts| - 1;
      var front := adverts[..last];
      forall k | 0 <= k < m - 1
        ensures p[k] < last && front[p[k]].index == k + 1
      {
        assert p[k] < p[m - 1];
      }
      assert ArrivedAt(p[..m - 1], front, m - 1);
      ArrivedProgress(front, n, m - 1, p[..m - 1]);
      if p[m - 1] < last {
        assert ArrivedAt(p, front, m);
        ArrivedProgress(front, n, m, p);
      }
    }
  }

  /** Progress counts what has arrived as a subsequence. */
  lemma ProgressExact(adverts: seq<Advert>, n: nat, m: nat)
    requires m <= n
    ensures m <= Progress(adverts, n) <==> Arrived(adverts, m)
  {
    if m <= Progress(adverts, n) {
      ProgressArrived(adverts, n, m);
    } else if Arrived(adverts, m) {
      var p :| ArrivedAt(p, adverts, m);
      ArrivedProgress(adverts, n, m, p);
    }
  }

  // ----- reassembly -----

  /** Where a channel stands after p of the fragments. */
  function Standing(parts: seq<bytes>, text: bytes, p: nat): Channel
    requires p <= |parts| <= 255
  {
    if p < |parts| then Channel(Concat(parts[..p]), p + 1, false, []) else Channel([], 1, true, text)
  }

  lemma OneAdvert(parts: seq<bytes>, text: bytes, link: Link, p: nat, a: Advert)
    requires Sent(parts, text, link) && p <= |parts| && a.total == |parts|
    requires 1 <= a.index <= |parts| ==> a.payload == parts[a.index - 1]
    ensures Received(Standing(parts, text, p), a, link)
         == Standing(parts, text, if p < |parts| && a.index == p + 1 then p + 1 else p)
  {
    if p < |parts| && a.index == p + 1 {
      assert parts[..p + 1][..p] == parts[..p];
      assert p + 1 == |parts| ==> parts[..p + 1] == parts;
    }
  }

  /**
    Whatever was lost, repeated or reordered: until all fragments have arrived in order the buffer holds exactly those
    that have, and from then on the channel holds the sender's text.
   */
  lemma {:induction false} Reassembled(adverts: seq<Advert>, parts: seq<bytes>, text: bytes, link: Link)
    requires Sent(parts, text, link) && Schedule(adverts, parts)
    ensures Delivered(adverts, link) == Standing(parts, text, Progress(adverts, |parts|))
    decreases |adverts|
  {
    hide Received;
    if adverts == [] {
      assert parts[..0] == [];
    } else {
      var front, last := adverts[..|adverts| - 1], adverts[|adverts| - 1];
      Reassembled(front, parts, text, link);
      OneAdvert(parts, text, link, Progress(front, |parts|), last);
    }
  }

  /** The channel completes exactly when fragments 1 to n have arrived as a subsequence, and then with the text sent. */
  lemma CompletesExactly(adverts: seq<Advert>, parts: seq<bytes>, text: bytes, link: Link)
    requires Sent(parts, text, link) && Schedule(adverts, parts)
    ensures Delivered(adverts, link).done <==> Arrived(adverts, |parts|)
    ensures Delivered(adverts, link).done ==> Delivered(adverts, link).text == text
  {
    Reassembled(adverts, parts, text, link);
    ProgressExact(adverts, |parts|, |parts|);
  }

  // ----- a message that does not open -----

  lemma {:induction false} NoTextYet(adverts: seq<Advert>, link: Link)
    ensures !Delivered(adverts, link).done ==> Delivered(adverts, link).text == []
    decreases |adverts|
  {
    if adverts != [] {
      NoTextYet(adverts[..|adverts| - 1], link);
    }
  }

  lemma {:induction false} StartedOver(before: seq<Advert>, after: seq<Advert>, link: Link)
    requires Delivered(before, link) == START
    ensures Delivered(before + after, link) == Delivered(after, link)
    decreases |after|
  {
    hide Received;
    if after == [] {
      assert before + after == before;
    } else {
      assert (before + after)[..|before + after| - 1] == before + after[..|after| - 1];
      StartedOver(before, after[..|after| - 1], link);
    }
  }

  /**
    When the last fragment expected makes a message that does not open, everything is forgotten: whatever follows is
    received as from the start, so a message that is sent whole afterwards still arrives.
   */
  lemma SpoiledIsForgotten(before: seq<Advert>, a: Advert, after: seq<Advert>, link: Link)
    requires var ch := Delivered(before, link);
             !ch.done && a.index == ch.expected && a.total == a.index && !Opened(link, ch.buffer + a.payload).Plain?
    ensures Delivered(before + [a], link) == START
    ensures Delivered(before + [a] + after, link) == Delivered(after, link)
  {
    NoTextYet(before, link);
    assert (before + [a])[..|before|] == before;
    StartedOver(before + [a], after, link);
  }

  // ----- the scan loop's variables -----

  class ScanChannel {
    const link: Link
    var buffer: bytes
    var recnum: byte
    var received: bool
    var text: bytes

    constructor (l: Link)
      ensures link == l && State() == START
    {
      link := l;
      buffer, recnum, received, text := [], 1, false, [];
    }

    function State(): Channel
      reads this
    {
      Channel(buffer, recnum, received, text)
    }

    /** One line of scan output on this channel; failed is the return of -1 after a message that does not open. */
    method Receive(total: byte, index: byte, payload: bytes) returns (failed: bool)
      modifies this
      ensures State() == Received(old(State()), Advert(total, index, payload), link)
      ensures failed <==>
                var next := Appended(old(State()), Advert(total, index, payload));
                !old(received) && (total + 1) % 256 == next.expected && !Opened(link, next.buffer).Plain?
    {
      failed := false;
      if !received {
        if index == recnum {
          buffer := buffer + payload;
          recnum := (recnum + 1) % 256;
        }
        if (total + 1) % 256 == recnum {
          recnum := 1;
          var decoded := link.decode(buffer);
          var decrypted := Decrypted(link.cipher, decoded, link.key);
          if !decrypted.Plain? {
            buffer := [];
            return true;
          }
          text := decrypted.text;
          buffer := [];
          received := true;
        }
      }
    }
  }
}
