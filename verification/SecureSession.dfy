// The encrypted session of esp_hap_network_io.c: frames of at most 1024 bytes, sealed under a
// nonce that counts frames, over a byte stream.

module SecureSession {
  import opened ByteConvert
  import opened Bytes

  type bytes = seq<byte>

  const MAX_FRAME_SIZE := 1024
  const AUTH_TAG_LEN := 16

  /** ChaCha20-Poly1305 with the tag appended: arguments are key, nonce, additional data, text. */
  datatype Aead = Aead(
    seal: (bytes, bytes, bytes, bytes) -> bytes,
    open: (bytes, bytes, bytes, bytes) -> Option<bytes>)

  const NONCE_LEN := 12

  /** Opening undoes sealing, and refuses what was sealed under another nonce. Nothing is said of anything else. */
  ghost predicate Correct(a: Aead) {
    && (forall key, nonce, aad, text ::
          && |a.seal(key, nonce, aad, text)| == |text| + AUTH_TAG_LEN
          && a.open(key, nonce, aad, a.seal(key, nonce, aad, text)) == Some(text))
    && (forall key, nonce, other, aad, text :: |nonce| == |other| == NONCE_LEN && nonce != other ==>
          a.open(key, other, aad, a.seal(key, nonce, aad, text)) == None)
  }

  // ----- nonces -----

  type Nonce = s: bytes | |s| == 8
    witness Repeat(0, 8)

  /** The nonce bytes of frame number k, counted from 0; they wrap at 64 bits. */
  function NonceAt(k: nat): (r: bytes)
    ensures |r| == 8
  {
    PutLe(k % Pow256(8), 8)
  }

  /** get_u64_le, add one, put_u64_le. */
  function NextNonce(nonce: bytes): (r: bytes)
    ensures |r| == 8
  {
    PutLe((GetLe(nonce) + 1) % Pow256(8), 8)
  }

  lemma NonceValue(k: nat)
    ensures GetLe(NonceAt(k)) == k % Pow256(8)
  {
    var m := Pow256(8);
    GetPut(k % m, 8);
    FundamentalDivMod(k, m);
    DivModUnique(k % m, m, 0, k % m);
  }

  lemma NextNonceCounts(k: nat)
    ensures NextNonce(NonceAt(k)) == NonceAt(k + 1)
  {
    hide Pow256, PutLe, GetLe;
    var m := Pow256(8);
    var q, r := k / m, k % m;
    NonceValue(k);
    FundamentalDivMod(k, m);
    if r + 1 < m {
      DivModUnique(k + 1, m, q, r + 1);
      DivModUnique(r + 1, m, 0, r + 1);
    } else {
      assert m * (q + 1) == m * q + m;
      DivModUnique(k + 1, m, q + 1, 0);
      DivModUnique(r + 1, m, 1, 0);
    }
  }

  /** No two of the first 2^64 frames share a nonce. */
  lemma NoncesDistinct(i: nat, j: nat)
    requires i < j < Pow256(8)
    ensures NonceAt(i) != NonceAt(j)
  {
    var m := Pow256(8);
    NonceValue(i);
    NonceValue(j);
    DivModUnique(i, m, 0, i);
    DivModUnique(j, m, 0, j);
  }

  function FullNonce(nonce: bytes): bytes {
    Repeat(0, 4) + nonce
  }

  // ----- frames -----

  predicate FrameSized(text: bytes) {
    0 < |text| <= MAX_FRAME_SIZE
  }

  function Body(a: Aead, key: bytes, nonce: bytes, text: bytes): bytes {
    a.seal(key, FullNonce(nonce), PutLe(|text|, 2), text)
  }

  /** Length, little endian, and the sealed text with its tag. */
  function Frame(a: Aead, key: bytes, nonce: bytes, text: bytes): bytes {
    PutLe(|text|, 2) + Body(a, key, nonce, text)
  }

  /** The byte stream for consecutive frames, the first of them number k. */
  function Stream(a: Aead, key: bytes, texts: seq<bytes>, k: nat): bytes {
    if texts == [] then [] else Frame(a, key, NonceAt(k), texts[0]) + Stream(a, key, texts[1..], k + 1)
  }

  function Flat(texts: seq<bytes>): bytes {
    if texts == [] then [] else texts[0] + Flat(texts[1..])
  }

  lemma {:induction false} StreamAppend(a: Aead, key: bytes, texts: seq<bytes>, k: nat, text: bytes)
    ensures Stream(a, key, texts + [text], k)
      == Stream(a, key, texts, k) + Frame(a, key, NonceAt(k + |texts|), text)
    decreases |texts|
  {
    hide Frame, NonceAt;
    var all := texts + [text];
    if texts == [] {
      assert all == [text] && all[1..] == [];
      assert Stream(a, key, [], k + 1) == [];
      assert Frame(a, key, NonceAt(k), text) + [] == [] + Frame(a, key, NonceAt(k), text);
    } else {
      assert all[1..] == texts[1..] + [text];
      StreamAppend(a, key, texts[1..], k + 1, text);
    }
  }

  lemma {:induction false} FlatAppend(texts: seq<bytes>, text: bytes)
    ensures Flat(texts + [text]) == Flat(texts) + text
    decreases |texts|
  {
    var all := texts + [text];
    if texts == [] {
      assert all == [text] && all[1..] == [];
    } else {
      assert all[1..] == texts[1..] + [text];
      FlatAppend(texts[1..], text);
    }
  }

  /** Frame j is the length of its text, low byte first, and the text sealed with that length as additional data, under
      four zeros and then k + j in eight bytes, low byte first. */
  ghost predicate Sealed(a: Aead, key: bytes, k: nat, texts: seq<bytes>, frames: seq<bytes>) {
    && |frames| == |texts|
    && forall j :: 0 <= j < |texts| ==> SealedAs(a, key, k + j, texts[j], frames[j])
  }

  /** The bytes are those of such frames. */
  ghost predicate OfFrames(a: Aead, key: bytes, k: nat, texts: seq<bytes>, stream: bytes) {
    exists frames :: Sealed(a, key, k, texts, frames) && stream == Flat(frames)
  }

  predicate AllFull(texts: seq<bytes>) {
    forall t :: t in texts ==> |t| == 1024
  }

  /** Every text but the last has 1024 bytes, and the last no more. */
  predicate CutUp(texts: seq<bytes>) {
    texts == [] || (AllFull(texts[..|texts| - 1]) && 0 < |texts[|texts| - 1]| <= 1024)
  }

  lemma NoTexts()
    ensures CutUp([]) && AllFull([])
  {}

  lemma CutSized(texts: seq<bytes>)
    requires CutUp(texts)
    ensures forall t :: t in texts ==> FrameSized(t)
  {}

  lemma CutMore(texts: seq<bytes>, text: bytes)
    requires AllFull(texts) && 0 < |text| <= 1024
    ensures CutUp(texts + [text]) && (|text| == 1024 ==> AllFull(texts + [text]))
  {
    assert (texts + [text])[..|texts|] == texts;
  }

  ghost predicate SealedAs(a: Aead, key: bytes, k: nat, text: bytes, frame: bytes) {
    exists nonce: bytes ::
      && |nonce| == 12 && nonce[..4] == [0, 0, 0, 0] && GetLe(nonce[4..]) == k % 0x1_0000_0000_0000_0000
      && frame == PutLe(|text|, 2) + a.seal(key, nonce, PutLe(|text|, 2), text)
  }

  lemma FrameSealed(a: Aead, key: bytes, k: nat, text: bytes)
    ensures SealedAs(a, key, k, text, Frame(a, key, NonceAt(k), text))
  {
    hide NonceAt, PutLe, GetLe, Pow256;
    var nonce := FullNonce(NonceAt(k));
    NonceValue(k);
    TwoTo64();
    assert nonce[..4] == [0, 0, 0, 0] && nonce[4..] == NonceAt(k);
  }

  lemma TwoTo64()
    ensures Pow256(8) == 0x1_0000_0000_0000_0000
  {
    assert Pow256(2) == 256 * Pow256(1) && Pow256(1) == 256 * Pow256(0);
    assert Pow256(4) == 256 * Pow256(3) && Pow256(3) == 256 * Pow256(2);
    assert Pow256(6) == 256 * Pow256(5) && Pow256(5) == 256 * Pow256(4);
    assert Pow256(8) == 256 * Pow256(7) && Pow256(7) == 256 * Pow256(6);
  }

  lemma {:induction false} StreamSealed(a: Aead, key: bytes, texts: seq<bytes>, k: nat)
    ensures OfFrames(a, key, k, texts, Stream(a, key, texts, k))
    decreases |texts|
  {
    hide Frame, NonceAt, SealedAs;
    if texts == [] {
      assert Sealed(a, key, k, texts, []);
    } else {
      StreamSealed(a, key, texts[1..], k + 1);
      var rest :| Sealed(a, key, k + 1, texts[1..], rest) && Stream(a, key, texts[1..], k + 1) == Flat(rest);
      var first := Frame(a, key, NonceAt(k), texts[0]);
      var frames := [first] + rest;
      FrameSealed(a, key, k, texts[0]);
      assert frames[1..] == rest;
      forall j | 0 <= j < |texts| ensures SealedAs(a, key, k + j, texts[j], frames[j]) {
        if j > 0 {
          assert texts[j] == texts[1..][j - 1] && frames[j] == rest[j - 1];
          assert SealedAs(a, key, k + 1 + (j - 1), texts[1..][j - 1], rest[j - 1]);
        }
      }
      assert Sealed(a, key, k, texts, frames);
    }
  }

  lemma StreamOfNothing(a: Aead, key: bytes, k: nat)
    ensures Stream(a, key, [], k) == [] && Flat([]) == []
  {}

  lemma LengthBack(n: nat)
    requires n <= MAX_FRAME_SIZE
    ensures GetLe(PutLe(n, 2)) == n
  {
    GetPut(n, 2);
    assert Pow256(2) == 256 * Pow256(1) && Pow256(1) == 256 * Pow256(0);
  }

  // ----- endpoints -----

  /** A connected socket seen from both ends; the bytes sent and not yet received. */
  class Wire {
    var pending: bytes
    /** How often a receive came back empty, or with half of a header. */
    ghost var lapses: nat
    /** How often a send took nothing. */
    ghost var refusals: nat
    /** How often a send took a part. */
    var cuts: nat

    constructor ()
      ensures pending == []
    {
      pending, lapses, refusals, cuts := [], 0, 0, 0;
    }

    /** send(): takes as much as it can before its timeout, or fails. */
    method Send(data: bytes) returns (sent: int)
      modifies this`pending, this`refusals, this`cuts
      ensures -1 <= sent <= |data| && pending == old(pending) + data[..if sent > 0 then sent else 0]
      ensures refusals == old(refusals) + if sent <= 0 then 1 else 0
      ensures cuts == old(cuts) + if 0 < sent < |data| then 1 else 0
    {
      sent := *;
      if !(0 < sent <= |data|) {
        refusals := refusals + 1;
        assert pending == pending + data[..0];
        return if sent == 0 then 0 else -1;
      }
      pending := pending + data[..sent];
      cuts := cuts + if sent < |data| then 1 else 0;
    }

    /** recv(): at most `want` bytes; none on a timeout, an error or a closed peer. */
    method Recv(want: nat) returns (data: bytes)
      modifies this
      ensures |data| <= want && old(pending) == data + pending
      ensures lapses == old(lapses) + if |data| < want && (data == [] || want == 2) then 1 else 0
    {
      var n: nat :| n <= want && n <= |pending|;
      data := pending[..n];
      pending := pending[n..];
      lapses := lapses + if n < want && (n == 0 || want == 2) then 1 else 0;
    }
  }

  /** Since so many cuts, all of these bytes went out if none was added, and else fewer. */
  ghost predicate Carries(wire: Wire, before: nat, all: bytes)
    reads wire
  {
    if wire.cuts == before then wire.pending == all else wire.cuts > before && |wire.pending| < |all|
  }

  lemma CarriesNothing(wire: Wire)
    ensures Carries(wire, wire.cuts, wire.pending + [])
  {
    assert wire.pending + [] == wire.pending;
  }

  // Both ends count their frames in the same way.
  method Incremented(nonce: Nonce) returns (next: Nonce)
    ensures next == NextNonce(nonce)
  {
    var intNonce := GetU64Le(nonce);
    assert nonce[..8] == nonce;
    intNonce := (intNonce + 1) % Pow256(8);
    var buf := new byte[8](_ => 0);
    PutU64Le(buf, intNonce);
    next := buf[..];
  }

  datatype SessionState = Verified | Invalid

  class Session {
    const aead: Aead
    const encryptKey: bytes
    const decryptKey: bytes
    var state: SessionState
    var encryptNonce: Nonce
    var decryptNonce: Nonce
    /** Every nonce a text was sealed under. */
    ghost var usedNonces: seq<bytes>

    constructor (aead: Aead, encryptKey: bytes, decryptKey: bytes)
      ensures this.aead == aead && this.encryptKey == encryptKey && this.decryptKey == decryptKey
      ensures state == Verified && encryptNonce == decryptNonce == NonceAt(0) && usedNonces == []
    {
      this.aead, this.encryptKey, this.decryptKey := aead, encryptKey, decryptKey;
      state := Verified;
      encryptNonce, decryptNonce := Repeat(0, 8), Repeat(0, 8);
      usedNonces := [];
      new;
      ZeroNonce();
    }

    method EncryptData(buf: bytes) returns (frame: bytes)
      modifies this`encryptNonce, this`usedNonces
      ensures frame == PutLe(|buf|, 2) + aead.seal(encryptKey, [0, 0, 0, 0] + old(encryptNonce), PutLe(|buf|, 2), buf)
      ensures frame == Frame(aead, encryptKey, old(encryptNonce), buf) && |frame| >= 2
      ensures encryptNonce == NextNonce(old(encryptNonce))
      ensures usedNonces == old(usedNonces) + [old(encryptNonce)]
    {
      var pktSize := new byte[2](_ => 0);
      PutU16Le(pktSize, |buf|);
      assert pktSize[..] == PutLe(|buf|, 2);
      assert FullNonce(encryptNonce) == [0, 0, 0, 0] + encryptNonce;
      frame := pktSize[..] + aead.seal(encryptKey, FullNonce(encryptNonce), pktSize[..], buf);
      usedNonces := usedNonces + [encryptNonce];
      encryptNonce := Incremented(encryptNonce);
    }

    // One frame of the loop.
    method SendOne(wire: Wire, text: bytes, ghost k: nat, ghost cuts: nat, ghost sofar: bytes) returns (ok: bool)
      requires encryptNonce == NonceAt(k) && Carries(wire, cuts, sofar)
      modifies wire, this`encryptNonce, this`usedNonces
      ensures encryptNonce == NonceAt(k + 1) && usedNonces == old(usedNonces) + [NonceAt(k)]
      ensures if ok then wire.refusals == old(wire.refusals) else wire.refusals > old(wire.refusals)
      ensures Carries(wire, cuts, if ok then sofar + Frame(aead, encryptKey, NonceAt(k), text) else sofar)
    {
      hide NonceAt, NextNonce, Frame, PutLe;
      var frame := EncryptData(text);
      NextNonceCounts(k);
      var sent := wire.Send(frame);
      return sent > 0;
    }

    /** hap_httpd_send. The texts are those of the frames that went out. */
    method HttpdSend(wire: Wire, buf: bytes, ghost k: nat) returns (r: int, ghost texts: seq<bytes>)
      requires state == Verified ==> encryptNonce == NonceAt(k)
      modifies wire, this`encryptNonce, this`usedNonces
      // the wire has the frames exactly if each send took all of its frame
      ensures state == Verified ==>
        Carries(wire, old(wire.cuts), old(wire.pending) + Stream(aead, encryptKey, texts, k))
      // and these are, byte by byte, sealed under four zeros and their number
      ensures state == Verified ==>
        OfFrames(aead, encryptKey, k, texts, Stream(aead, encryptKey, texts, k)) && CutUp(texts)
      ensures state == Verified ==> forall t :: t in texts ==> FrameSized(t)
      ensures state == Verified ==> Flat(texts) <= buf && ((r == |buf| && Flat(texts) == buf) || r == -1)
      ensures state == Verified ==> encryptNonce == NonceAt(k + |texts| + if r >= 0 then 0 else 1)
      ensures state == Verified && Numbered(old(usedNonces), k) ==>
        Numbered(usedNonces, k + |texts| + if r >= 0 then 0 else 1)
      ensures state == Invalid ==>
        -1 <= r <= |buf| && wire.pending == old(wire.pending) + buf[..if r > 0 then r else 0]
      ensures r < 0 ==> wire.refusals > old(wire.refusals)
      ensures |usedNonces| <= |old(usedNonces)| + FramesFor(|buf|)
    {
      hide Stream, Frame, NonceAt, NextNonce, Flat, OfFrames, CutUp, AllFull;
      hide Numbered, FrameSized, Carries;
      assert Carries(wire, wire.cuts, wire.pending + []) by { CarriesNothing(wire); }
      texts := [];
      NoTexts();
      assert Stream(aead, encryptKey, [], k) == [] && Flat([]) == [] by { StreamOfNothing(aead, encryptKey, k); }
      if state == Verified {
        var tmpBufLen, bufPtr := |buf|, 0;
        ghost var numbered := Numbered(usedNonces, k);
        while tmpBufLen > 0
          invariant 0 <= tmpBufLen && bufPtr + tmpBufLen == |buf|
          invariant Flat(texts) == buf[..bufPtr]
          invariant CutUp(texts) && (tmpBufLen > 0 ==> AllFull(texts))
          invariant Carries(wire, old(wire.cuts), old(wire.pending) + Stream(aead, encryptKey, texts, k))
          invariant encryptNonce == NonceAt(k + |texts|) && wire.refusals == old(wire.refusals)
          invariant numbered ==> Numbered(usedNonces, k + |texts|)
          invariant |usedNonces| + FramesFor(tmpBufLen) <= |old(usedNonces)| + FramesFor(|buf|)
        {
          var len := if tmpBufLen < MAX_FRAME_SIZE then tmpBufLen else MAX_FRAME_SIZE;
          var text := buf[bufPtr..bufPtr + len];
          if numbered {
            NumberedNext(usedNonces, k + |texts|);
          }
          ghost var sofar := old(wire.pending) + Stream(aead, encryptKey, texts, k);
          var ok := SendOne(wire, text, k + |texts|, old(wire.cuts), sofar);
          if !ok {
            StreamSealed(aead, encryptKey, texts, k);
            CutSized(texts);
            return -1, texts;
          }
          StreamAppend(aead, encryptKey, texts, k, text);
          assert sofar + Frame(aead, encryptKey, NonceAt(k + |texts|), text)
            == old(wire.pending) + Stream(aead, encryptKey, texts + [text], k);
          FlatAppend(texts, text);
          CutMore(texts, text);
          texts := texts + [text];
          tmpBufLen, bufPtr := tmpBufLen - len, bufPtr + len;
          assert buf[..bufPtr] == buf[..bufPtr - len] + text;
        }
        assert buf[..bufPtr] == buf;
        StreamSealed(aead, encryptKey, texts, k);
        CutSized(texts);
        return |buf|, texts;
      }
      r := wire.Send(buf);
    }
  }

  /** The i-th nonce used is that of frame number i, for n frames. */
  ghost predicate Numbered(nonces: seq<bytes>, n: nat) {
    |nonces| == n && forall i :: 0 <= i < n ==> nonces[i] == NonceAt(i)
  }

  lemma NumberedNext(nonces: seq<bytes>, n: nat)
    requires Numbered(nonces, n)
    ensures Numbered(nonces + [NonceAt(n)], n + 1)
  {}

  lemma {:induction false} ZeroBytes(n: nat)
    ensures PutLe(0, n) == Repeat(0, n)
  {
    if n > 0 {
      ZeroBytes(n - 1);
    }
  }

  lemma ZeroNonce()
    ensures NonceAt(0) == Repeat(0, 8)
  {
    DivModUnique(0, Pow256(8), 0, 0);
    ZeroBytes(8);
  }

  /** The receiver's frame buffer: the frame being handed out, and how far. */
  class DecryptFrame {
    var pktSize: nat
    var bytesRead: nat
    const data: array<byte>
    var session: Session?

    constructor ()
      ensures Valid() && session == null && fresh(data)
    {
      pktSize, bytesRead, session := 0, 0, null;
      data := new byte[MAX_FRAME_SIZE + AUTH_TAG_LEN](_ => 0);
    }

    ghost predicate Valid()
      reads this
    {
      data.Length == MAX_FRAME_SIZE + AUTH_TAG_LEN && bytesRead <= pktSize <= MAX_FRAME_SIZE
    }

    /** Bytes already decrypted for the session and not yet handed out. */
    ghost function Unread(s: Session): bytes
      reads this, data
      requires Valid()
    {
      if session == s then data[bytesRead..pktSize] else []
    }

    /** hap_decrypt_data, when the stream to come is that of `texts`, the first of them frame k, and after them `tail`:
        nothing, or a frame that is not the next one. */
    method DecryptData(s: Session, wire: Wire, bufSize: nat, ghost texts: seq<bytes>, ghost k: nat, ghost tail: bytes)
      returns (r: int, buf: bytes)
      requires Valid() && Correct(s.aead)
      requires s.state == Verified && s.decryptNonce == NonceAt(k)
      requires wire.pending == Stream(s.aead, s.decryptKey, texts, k) + tail
      requires tail == [] || Foreign(s.aead, s.decryptKey, tail, k + |texts|)
      requires forall t :: t in texts ==> FrameSized(t)
      modifies this, data, wire, s`state, s`decryptNonce
      ensures r < 0 ==> r == -1 && buf == [] && s.state == Invalid
      ensures r < 0 ==> wire.lapses > old(wire.lapses) || (texts == [] && tail != [])
      ensures r >= 0 ==> s.state == Verified && Valid() && session == s && r == |buf|
      ensures r >= 0 && old(Unread(s)) != [] ==>
        && wire.pending == old(wire.pending) && s.decryptNonce == old(s.decryptNonce)
        && TakesUpTo(bufSize, old(Unread(s)), buf, Unread(s))
      ensures r >= 0 && old(Unread(s)) == [] ==>
        && texts != [] && wire.pending == Stream(s.aead, s.decryptKey, texts[1..], k + 1) + tail
        && s.decryptNonce == NonceAt(k + 1)
        && TakesUpTo(bufSize, texts[0], buf, Unread(s))
    {
      hide Correct, Stream, NonceAt, NextNonce, Foreign;
      buf := [];
      ghost var start := Unread(s);
      if session != s {
        forall i | 0 <= i < data.Length {
          data[i] := 0;
        }
        pktSize, bytesRead, session := 0, 0, s;
      }
      assert Unread(s) == start && s.state == Verified;
      if pktSize - bytesRead == 0 {
        var ok := ReadFrame(s, wire, texts, k, tail);
        if !ok {
          s.state := Invalid;
          return -1, [];
        }
      }
      var count := if pktSize - bytesRead < bufSize then pktSize - bytesRead else bufSize;
      buf := data[bytesRead..bytesRead + count];
      TakenFrom(data[..], bytesRead, count, pktSize);
      bytesRead := bytesRead + count;
      return count, buf;
    }

    /** The part of hap_decrypt_data that fetches and opens the next frame. */
    method ReadFrame(s: Session, wire: Wire, ghost texts: seq<bytes>, ghost k: nat, ghost tail: bytes)
      returns (ok: bool)
      requires Valid() && Correct(s.aead) && session == s
      requires s.decryptNonce == NonceAt(k)
      requires wire.pending == Stream(s.aead, s.decryptKey, texts, k) + tail
      requires tail == [] || Foreign(s.aead, s.decryptKey, tail, k + |texts|)
      requires forall t :: t in texts ==> FrameSized(t)
      modifies this`pktSize, this`bytesRead, data, wire, s`decryptNonce
      ensures ok ==> Valid() && texts != [] && Unread(s) == texts[0]
      ensures ok ==> wire.pending == Stream(s.aead, s.decryptKey, texts[1..], k + 1) + tail
      ensures ok ==> s.decryptNonce == NonceAt(k + 1)
      ensures ok ==> Opened(s.aead, s.decryptKey, old(s.decryptNonce), old(wire.pending), wire.pending, texts[0])
      // the next frame is never refused
      ensures !ok ==> wire.lapses > old(wire.lapses) || (texts == [] && tail != [])
    {
      hide Correct, Stream, Body, NonceAt, NextNonce, PutLe, GetLe, FullNonce, Pow256, Foreign, Opened;
      var header := wire.Recv(2);
      if |header| < 2 {
        return false;
      }
      ghost var nonce, text, rest := FrontFrame(s.aead, s.decryptKey, texts, k, tail, header, wire.pending);
      HeaderFirst(s.aead, s.decryptKey, nonce, text, rest, header, wire.pending);
      ghost var body := Body(s.aead, s.decryptKey, nonce, text);
      BodyLength(s.aead, s.decryptKey, nonce, text);
      LengthBack(|text|);
      data[0], data[1] := header[0], header[1];
      assert data[..2] == header;
      pktSize := GetU16Le(data[..]);
      assert data[..][..2] == header;
      var ok' := FillBody(wire, body, rest);
      if !ok' {
        return false;
      }
      bytesRead := bytesRead - AUTH_TAG_LEN;
      var aad := new byte[2](_ => 0);
      PutU16Le(aad, pktSize);
      assert aad[..] == PutLe(pktSize, 2);
      var plain := s.aead.open(s.decryptKey, FullNonce(s.decryptNonce), aad[..], data[..bytesRead + AUTH_TAG_LEN]);
      OpensOnlyNext(s.aead, s.decryptKey, nonce, s.decryptNonce, text);
      if plain.None? {
        return false;
      }
      WasOpened(s.aead, s.decryptKey, s.decryptNonce, header, body, rest, text);
      Store(0, plain.value);
      bytesRead := 0;
      s.decryptNonce := Incremented(s.decryptNonce);
      NextNonceCounts(k);
      return true;
    }

    /** The read loop: recv may return any part of what is asked for. */
    method FillBody(wire: Wire, ghost body: bytes, ghost rest: bytes) returns (ok: bool)
      requires |body| == pktSize + AUTH_TAG_LEN <= data.Length == MAX_FRAME_SIZE + AUTH_TAG_LEN
      requires wire.pending == body + rest
      modifies this`bytesRead, data, wire
      ensures ok ==> bytesRead == |body| && data[..|body|] == body && wire.pending == rest
      ensures if ok then wire.lapses >= old(wire.lapses) else wire.lapses > old(wire.lapses)
    {
      bytesRead := 0;
      var bytesToRead := (pktSize + AUTH_TAG_LEN) % 0x1_0000;
      while bytesToRead > 0
        invariant bytesRead + bytesToRead == |body| && 0 <= bytesToRead
        invariant data[..bytesRead] + wire.pending == body + rest
        invariant wire.lapses >= old(wire.lapses)
      {
        ghost var done := data[..bytesRead];
        var chunk := wire.Recv(bytesToRead);
        if |chunk| <= 0 {
          return false;
        }
        Store(bytesRead, chunk);
        ChunkMoved(done, chunk, wire.pending);
        bytesToRead := bytesToRead - |chunk|;
        bytesRead := bytesRead + |chunk|;
        assert data[..bytesRead] == done + chunk;
      }
      SameSplit(data[..bytesRead], wire.pending, body, rest);
      ok := true;
    }

    method Store(at: nat, chunk: bytes)
      requires at + |chunk| <= data.Length
      modifies data
      ensures data[..at + |chunk|] == old(data[..at]) + chunk
      ensures data[at + |chunk|..] == old(data[at + |chunk|..])
    {
      forall i | 0 <= i < |chunk| {
        data[at + i] := chunk[i];
      }
    }
  }

  /** In front was the length of this text, and then what opens to it with that length as additional data, under four
      zeros and the eight bytes of the nonce. */
  ghost predicate Opened(a: Aead, key: bytes, nonce: bytes, before: bytes, after: bytes, text: bytes) {
    exists header, body ::
      && before == header + (body + after) && |header| == 2 && GetLe(header) == |text| && |body| == |text| + 16
      && a.open(key, [0, 0, 0, 0] + nonce, header, body) == Some(text)
  }

  lemma WasOpened(a: Aead, key: bytes, nonce: bytes, header: bytes, body: bytes, after: bytes, text: bytes)
    requires header == PutLe(|text|, 2) && |text| <= MAX_FRAME_SIZE && |body| == |text| + AUTH_TAG_LEN
    requires a.open(key, FullNonce(nonce), header, body) == Some(text)
    ensures Opened(a, key, nonce, header + (body + after), after, text)
  {
    LengthBack(|text|);
    assert FullNonce(nonce) == [0, 0, 0, 0] + nonce;
  }

  /** Some whole frame is in front, of another number than k. */
  ghost predicate Foreign(a: Aead, key: bytes, tail: bytes, k: nat) {
    exists nonce: Nonce, text, rest ::
      nonce != NonceAt(k) && FrameSized(text) && tail == Frame(a, key, nonce, text) + rest
  }

  // What is in front of the stream: the next frame, or a foreign one.
  lemma FrontFrame(a: Aead, key: bytes, texts: seq<bytes>, k: nat, tail: bytes, header: bytes, after: bytes)
    returns (nonce: Nonce, text: bytes, rest: bytes)
    requires tail == [] || Foreign(a, key, tail, k + |texts|)
    requires forall t :: t in texts ==> FrameSized(t)
    requires header + after == Stream(a, key, texts, k) + tail && |header| == 2
    ensures header + after == Frame(a, key, nonce, text) + rest && FrameSized(text)
    ensures texts != [] ==> nonce == NonceAt(k) && text == texts[0]
    ensures texts != [] ==> rest == Stream(a, key, texts[1..], k + 1) + tail
    ensures texts == [] ==> tail != [] && nonce != NonceAt(k)
  {
    hide NonceAt, Frame;
    if texts != [] {
      nonce, text, rest := NonceAt(k), texts[0], Stream(a, key, texts[1..], k + 1) + tail;
      assert header + after == Frame(a, key, nonce, text) + Stream(a, key, texts[1..], k + 1) + tail;
    } else {
      assert header + after == tail;
      assert tail != [];
      var o: Nonce, t, r :| o != NonceAt(k) && FrameSized(t) && tail == Frame(a, key, o, t) + r;
      nonce, text, rest := o, t, r;
    }
  }

  lemma HeaderFirst(a: Aead, key: bytes, nonce: bytes, text: bytes, rest: bytes, header: bytes, after: bytes)
    requires header + after == Frame(a, key, nonce, text) + rest && |header| == 2
    ensures header == PutLe(|text|, 2) && after == Body(a, key, nonce, text) + rest
  {
    SplitFront(header, after, PutLe(|text|, 2), Body(a, key, nonce, text), rest);
  }

  lemma SplitFront(x: bytes, y: bytes, front: bytes, middle: bytes, rest: bytes)
    requires x + y == (front + middle) + rest && |x| == |front|
    ensures x == front && y == middle + rest
  {
    assert (front + middle) + rest == front + (middle + rest);
    SameSplit(x, y, front, middle + rest);
  }

  lemma PrefixOfMore(x: bytes, y: bytes, z: bytes)
    requires y <= z
    ensures x <= x + y <= x + z
  {}

  lemma NotEmpty(text: bytes)
    requires FrameSized(text)
    ensures text != []
  {}

  lemma TakenFrom(mem: bytes, at: nat, count: nat, end: nat)
    requires at + count <= end <= |mem|
    ensures mem[at..end] == mem[at..at + count] + mem[at + count..end]
  {}

  lemma ChunkMoved(done: bytes, chunk: bytes, after: bytes)
    ensures done + (chunk + after) == (done + chunk) + after
  {}

  lemma SameSplit(x: bytes, y: bytes, body: bytes, rest: bytes)
    requires x + y == body + rest && |x| == |body|
    ensures x == body && y == rest
  {
    assert x == (x + y)[..|x|] && body == (body + rest)[..|x|];
    assert y == (x + y)[|x|..] && rest == (body + rest)[|x|..];
  }

  lemma BodyLength(a: Aead, key: bytes, nonce: bytes, text: bytes)
    requires Correct(a)
    ensures |Body(a, key, nonce, text)| == |text| + AUTH_TAG_LEN
  {}

  /** A frame opens to its text under its own nonce, and not at all under another. */
  lemma OpensOnlyNext(a: Aead, key: bytes, nonce: Nonce, current: Nonce, text: bytes)
    requires Correct(a)
    ensures a.open(key, FullNonce(current), PutLe(|text|, 2), Body(a, key, nonce, text))
      == if nonce == current then Some(text) else None
  {
    assert FullNonce(nonce)[4..] == nonce && FullNonce(current)[4..] == current;
  }

  /** `taken` is as much of `all` as fits in `size` bytes, and `left` is the rest. */
  predicate TakesUpTo(size: nat, all: bytes, taken: bytes, left: bytes) {
    all == taken + left && |taken| == if |all| < size then |all| else size
  }

  // ----- one direction of a session, both ends -----

  /** What is on the wire, how many frames the sender has numbered, and what became of them. */
  datatype Direction = Direction(pending: bytes, decryptNonce: bytes, used: nat, broken: bool, sent: bytes,
                                 delivered: bytes, unread: bytes, inFlight: seq<bytes>, received: nat, tail: bytes)
  {
    /** Nothing was lost, and both ends agree on the frame numbers, up to the first frame that failed to go out. */
    ghost predicate Agrees(a: Aead, key: bytes) {
      && (forall t :: t in inFlight ==> FrameSized(t))
      && pending == Stream(a, key, inFlight, received) + tail
      && (tail == [] || Foreign(a, key, tail, received + |inFlight|))
      && decryptNonce == NonceAt(received)
      && sent == delivered + unread + Flat(inFlight)
      && (if broken then used > received + |inFlight| else tail == [] && used == received + |inFlight|)
    }

    /** After a send: what goes out after a failure is only the tail. */
    ghost function Sent(a: Aead, key: bytes, texts: seq<bytes>, failed: bool, now: bytes): Direction {
      Direction(now, decryptNonce, used + |texts| + if failed then 1 else 0, broken || failed,
                if broken then sent else sent + Flat(texts), delivered, unread,
                if broken then inFlight else inFlight + texts, received,
                if broken then tail + Stream(a, key, texts, used) else tail)
    }

    /** The ends stay in agreement exactly if the wire has all frames. */
    lemma AgreesAfterSend(a: Aead, key: bytes, texts: seq<bytes>, failed: bool, now: bytes)
      requires Agrees(a, key) && (forall t :: t in texts ==> FrameSized(t))
      requires broken ==> used + |texts| <= Pow256(8)
      requires now == pending + Stream(a, key, texts, used) || |now| < |pending + Stream(a, key, texts, used)|
      ensures Sent(a, key, texts, failed, now).Agrees(a, key) <==> now == pending + Stream(a, key, texts, used)
    {
      hide Stream, Flat, NonceAt, Foreign, FrameSized, Pow256;
      var more := Stream(a, key, texts, used);
      if broken {
        TailGrows(a, key, tail, received + |inFlight|, texts, used);
        assert pending + more == Stream(a, key, inFlight, received) + (tail + more);
      } else {
        StreamConcat(a, key, inFlight, received, texts);
        assert pending + more == Stream(a, key, inFlight + texts, received) + tail;
        assert sent + Flat(texts) == delivered + unread + Flat(inFlight + texts);
        assert forall t :: t in inFlight + texts ==> FrameSized(t);
      }
    }

    /** After a receive that handed out `buf`, from the rest of a frame or from the next one, and left `left` of it. */
    ghost function Read(a: Aead, key: bytes, buf: bytes, left: bytes): Direction {
      var next := this.(delivered := delivered + buf, unread := left);
      if unread != [] || inFlight == [] then next
      else
        next.(pending := Stream(a, key, inFlight[1..], received + 1) + tail, decryptNonce := NonceAt(received + 1),
              inFlight := inFlight[1..], received := received + 1)
    }

    lemma AgreesAfterRead(a: Aead, key: bytes, buf: bytes, left: bytes)
      requires Agrees(a, key) && (unread == [] ==> inFlight != [])
      requires buf + left == if unread != [] then unread else inFlight[0]
      ensures Read(a, key, buf, left).Agrees(a, key) && Read(a, key, buf, left).delivered <= sent
    {
      hide Stream, NonceAt, Foreign, FrameSized;
      if unread != [] {
        assert sent == delivered + unread + Flat(inFlight) == (delivered + buf) + left + Flat(inFlight);
      } else {
        assert sent == delivered + [] + (inFlight[0] + Flat(inFlight[1..]))
          == (delivered + buf) + left + Flat(inFlight[1..]);
      }
    }
  }

  class Link {
    const sender: Session
    const receiver: Session
    const frame: DecryptFrame
    const wire: Wire
    /** A send has taken only part of a frame. */
    var torn: bool
    /** What became of all that was sent. */
    ghost var books: Direction

    ghost predicate Separate()
      reads frame
    {
      sender != receiver && frame.data.Length == MAX_FRAME_SIZE + AUTH_TAG_LEN
    }

    ghost predicate Keyed() {
      Correct(sender.aead) && sender.aead == receiver.aead && sender.encryptKey == receiver.decryptKey
    }

    lemma SameKeys()
      requires Keyed()
      ensures sender.aead == receiver.aead && sender.encryptKey == receiver.decryptKey
    {
      hide Correct;
    }

    /** The receiving end is healthy: both ends agree. */
    ghost predicate Coupled()
      reads this`books, sender`usedNonces, receiver`decryptNonce, frame, frame.data, wire`pending
    {
      frame.Valid() && Kept() && books.Agrees(receiver.aead, receiver.decryptKey)
    }

    /** The books are those of the two ends and the wire. */
    ghost predicate Kept()
      reads this`books, sender`usedNonces, receiver`decryptNonce, frame, frame.data, wire`pending
      requires frame.Valid()
    {
      && books.pending == wire.pending && books.decryptNonce == receiver.decryptNonce
      && books.unread == frame.Unread(receiver)
    }

    ghost predicate SenderValid()
      reads sender
    {
      && sender.state == Verified && sender.encryptNonce == NonceAt(|sender.usedNonces|)
      && Numbered(sender.usedNonces, |sender.usedNonces|)
    }

    /** Only after a lost frame does it matter that the 64 bits of the counter have not wrapped. */
    ghost predicate Unwrapped()
      reads this`books, sender`usedNonces
    {
      books.broken ==> |sender.usedNonces| <= Pow256(8)
    }

    ghost predicate Healthy()
      reads this`torn, this`books, sender`usedNonces, receiver`state
    {
      receiver.state == Verified && !torn && Unwrapped()
    }

    ghost predicate Valid()
      reads this, sender, receiver, frame, frame.data, wire
    {
      && Separate() && Keyed() && SenderValid() && books.used == |sender.usedNonces|
      && (Unwrapped() ==> books.delivered <= books.sent) && (Healthy() ==> Coupled())
    }

    constructor (aead: Aead, key: bytes, backKey: bytes)
      requires Correct(aead)
      ensures Valid() && !books.broken && !torn && receiver.state == Verified && books.sent == books.delivered == []
      ensures fresh(sender) && fresh(receiver) && fresh(frame) && fresh(frame.data) && fresh(wire)
    {
      sender := new Session(aead, key, backKey);
      receiver := new Session(aead, backKey, key);
      frame := new DecryptFrame();
      wire := new Wire();
      torn, books := false, Direction([], NonceAt(0), 0, false, [], [], [], [], 0, []);
    }

    // The frames of one buffer.
    method SendFrames(buf: bytes) returns (r: int, ghost texts: seq<bytes>)
      requires SenderValid()
      modifies sender, wire
      ensures SenderValid() && forall t :: t in texts ==> FrameSized(t)
      ensures |sender.usedNonces| == old(|sender.usedNonces|) + |texts| + if r < 0 then 1 else 0
      ensures |sender.usedNonces| <= old(|sender.usedNonces|) + FramesFor(|buf|)
      ensures if r < 0 then r == -1 && Flat(texts) <= buf && wire.refusals > old(wire.refusals)
        else r == |buf| && Flat(texts) == buf
      ensures
        var more := Stream(sender.aead, sender.encryptKey, texts, old(|sender.usedNonces|));
        Carries(wire, old(wire.cuts), old(wire.pending) + more)
    {
      hide Stream, Flat, NonceAt, FrameSized, Carries, FramesFor;
      r, texts := sender.HttpdSend(wire, buf, |sender.usedNonces|);
    }

    /** hap_httpd_send. What is sent after a failure goes out, but counts for nothing. The ends stay coupled exactly
        while each send takes all of its frame. */
    method Send(buf: bytes) returns (r: int)
      requires Valid()
      modifies this, sender, wire
      ensures Valid() && books.delivered == old(books.delivered)
      ensures r == |buf| || r == -1
      ensures |sender.usedNonces| <= |old(sender.usedNonces)| + FramesFor(|buf|)
      ensures books.broken == (old(books.broken) || r < 0)
      ensures torn == (old(torn) || wire.cuts > old(wire.cuts))
      ensures Unwrapped() && receiver.state == Verified && !old(torn) ==> (Coupled() <==> !torn)
      ensures old(books.broken) ==> books.sent == old(books.sent)
      ensures !old(books.broken) ==>
        if r >= 0 then books.sent == old(books.sent) + buf
        else old(books.sent) <= books.sent <= old(books.sent) + buf
      ensures r < 0 ==> wire.refusals > old(wire.refusals)
    {
      hide Stream, Flat, NonceAt, DecryptFrame.Unread, DecryptFrame.Valid, Correct, Foreign, FrameSized;
      hide Pow256, FramesFor, Direction.Agrees, Link.SenderValid, Link.Keyed;
      SameKeys();
      ghost var a, key, before, healthy := sender.aead, sender.encryptKey, books, Healthy();
      var cuts := wire.cuts;
      ghost var texts;
      r, texts := SendFrames(buf);
      PrefixOfMore(books.sent, Flat(texts), buf);
      books := before.Sent(a, key, texts, r < 0, wire.pending);
      torn := torn || wire.cuts > cuts;
      if healthy && Unwrapped() {
        before.AgreesAfterSend(a, key, texts, r < 0, wire.pending);
      }
    }

    /** hap_httpd_recv. */
    method Recv(bufSize: nat) returns (r: int, buf: bytes)
      requires Valid() && Unwrapped() && !torn
      modifies this, receiver, frame, frame.data, wire
      ensures Valid() && books.broken == old(books.broken) && !torn
      ensures books.sent == old(books.sent) && sender.usedNonces == old(sender.usedNonces)
      ensures books.delivered == old(books.delivered) + buf
      ensures r < 0 ==> r == -1 && buf == [] && receiver.state == Invalid
      // without a lost frame, only a lapse of the network is an error
      ensures r < 0 && !books.broken ==> old(receiver.state) == Invalid || wire.lapses > old(wire.lapses)
      ensures r >= 0 ==> r == |buf| <= bufSize && receiver.state == Verified
      // A call that succeeds makes progress.
      ensures r >= 0 && bufSize > 0 ==> buf != []
    {
      hide Stream, NonceAt, DecryptFrame.Unread, DecryptFrame.Valid, Correct, Foreign, FrameSized, Direction.Agrees;
      hide Numbered, Flat, Pow256;
      buf := [];
      if receiver.state != Verified {
        return -1, [];
      }
      Expected();
      ghost var before := books;
      r, buf := frame.DecryptData(receiver, wire, bufSize, books.inFlight, books.received, books.tail);
      if r >= 0 {
        ghost var left := frame.Unread(receiver);
        if before.unread == [] {
          NotEmpty(before.inFlight[0]);
        }
        books := before.Read(receiver.aead, receiver.decryptKey, buf, left);
        before.AgreesAfterRead(receiver.aead, receiver.decryptKey, buf, left);
      }
    }

    // What the receiver relies on.
    lemma Expected()
      requires Coupled()
      ensures Kept() && receiver.decryptNonce == NonceAt(books.received)
      ensures wire.pending == Stream(receiver.aead, receiver.decryptKey, books.inFlight, books.received) + books.tail
      ensures books.tail == [] ||
        Foreign(receiver.aead, receiver.decryptKey, books.tail, books.received + |books.inFlight|)
      ensures forall t :: t in books.inFlight ==> FrameSized(t)
      ensures !books.broken ==> books.tail == []
    {
      hide Stream, NonceAt, DecryptFrame.Unread, DecryptFrame.Valid, Foreign, FrameSized, Flat;
    }

    /** Any interleaving of sends and receives, failures among them, before the counter wraps, up to the first frame
        that goes out in part. `got` is all that the receiving application was given: always a prefix of what was
        offered, and of what went out before a failure. */
    method Run(actions: seq<Action>) returns (n: nat, got: bytes)
      requires Valid() && !torn && |sender.usedNonces| + FramesOf(actions) <= Pow256(8)
      modifies this, sender, receiver, frame, frame.data, wire
      ensures Valid() && books.delivered <= books.sent
      ensures n <= |actions| && (n < |actions| ==> torn)
      ensures books.delivered == old(books.delivered) + got
      ensures old(books.sent) <= books.sent <= old(books.sent) + Offered(actions[..n])
      ensures !books.broken ==> books.sent == old(books.sent) + Offered(actions[..n])
    {
      hide Link.Valid, Pow256, FramesOf, Offered, FramesFor;
      Nothing();
      got := [];
      n := 0;
      ghost var used := |sender.usedNonces|;
      while n < |actions| && !torn
        invariant Valid() && n <= |actions| && |sender.usedNonces| <= used + FramesOf(actions[..n])
        invariant books.delivered == old(books.delivered) + got
        invariant old(books.sent) <= books.sent <= old(books.sent) + Offered(actions[..n])
        invariant !books.broken ==> books.sent == old(books.sent) + Offered(actions[..n])
      {
        OneMore(actions, n);
        FramesGrow(actions, n + 1);
        match actions[n] {
          case Send(buf) =>
            var r := Send(buf);
          case Receive(size) =>
            var r, buf := Recv(size);
            got := got + buf;
        }
        n := n + 1;
      }
      FramesGrow(actions, n);
      DeliveredIsSent();
    }

    lemma DeliveredIsSent()
      requires Valid() && Unwrapped()
      ensures books.delivered <= books.sent
    {}
  }

  datatype Action = Send(buf: bytes) | Receive(size: nat)

  /** Frames that a buffer of this size is cut into. */
  function FramesFor(size: nat): nat {
    (size + MAX_FRAME_SIZE - 1) / MAX_FRAME_SIZE
  }

  function FramesOf(actions: seq<Action>): nat {
    if actions == [] then 0
    else
      var last := actions[|actions| - 1];
      FramesOf(actions[..|actions| - 1]) + if last.Send? then FramesFor(|last.buf|) else 0
  }

  lemma {:induction false} FramesGrow(actions: seq<Action>, k: nat)
    requires k <= |actions|
    ensures FramesOf(actions[..k]) <= FramesOf(actions)
    decreases |actions|
  {
    if k < |actions| {
      assert actions[..|actions| - 1][..k] == actions[..k];
      FramesGrow(actions[..|actions| - 1], k);
    } else {
      assert actions[..k] == actions;
    }
  }

  // What goes out after a lost frame is foreign to what the receiver waits for.
  lemma TailGrows(a: Aead, key: bytes, tail: bytes, j: nat, texts: seq<bytes>, k: nat)
    requires tail == [] || Foreign(a, key, tail, j)
    requires j < k && forall t :: t in texts ==> FrameSized(t)
    ensures
      var more := tail + Stream(a, key, texts, k);
      k + |texts| <= Pow256(8) ==> more == [] || Foreign(a, key, more, j)
  {
    hide NonceAt, Frame, Pow256;
    var more := tail + Stream(a, key, texts, k);
    if k + |texts| <= Pow256(8) && more != [] {
      if tail != [] {
        var nonce: Nonce, text, rest :|
          nonce != NonceAt(j) && FrameSized(text) && tail == Frame(a, key, nonce, text) + rest;
        assert more == Frame(a, key, nonce, text) + (rest + Stream(a, key, texts, k));
      } else {
        assert texts != [];
        NoncesDistinct(j, k);
        var nonce: Nonce := NonceAt(k);
        assert more == Frame(a, key, nonce, texts[0]) + Stream(a, key, texts[1..], k + 1);
      }
    }
  }

  lemma Nothing()
    ensures FramesOf([]) == 0 && Offered([]) == []
  {}

  lemma OneMore(actions: seq<Action>, n: nat)
    requires n < |actions|
    ensures FramesOf(actions[..n + 1])
      == FramesOf(actions[..n]) + if actions[n].Send? then FramesFor(|actions[n].buf|) else 0
    ensures Offered(actions[..n + 1]) == Offered(actions[..n]) + if actions[n].Send? then actions[n].buf else []
  {
    assert actions[..n + 1][..n] == actions[..n];
  }

  /** All that the sending application passed to send, in order. */
  function Offered(actions: seq<Action>): bytes {
    if actions == [] then []
    else
      var last := actions[|actions| - 1];
      Offered(actions[..|actions| - 1]) + if last.Send? then last.buf else []
  }

  /** Over a session, whatever was sent and received, no nonce seals two frames before the counter wraps. */
  lemma NoNonceReused(nonces: seq<bytes>)
    requires Numbered(nonces, |nonces|) && |nonces| <= Pow256(8)
    ensures forall i, j :: 0 <= i < j < |nonces| ==> nonces[i] != nonces[j]
  {
    forall i, j | 0 <= i < j < |nonces|
      ensures nonces[i] != nonces[j]
    {
      NoncesDistinct(i, j);
    }
  }

  /** Correct AEADs exist, so the results above are not empty: one that leaves the text as it is and writes the nonce
      into the tag. */
  lemma CorrectAeadExists()
    ensures exists a: Aead :: Correct(a)
  {
    var a := Aead((key, nonce, aad, text) => Tagged(nonce, text), (key, nonce, aad, sealed) => Untagged(nonce, sealed));
    forall key: bytes, nonce: bytes, aad: bytes, text: bytes
      ensures |a.seal(key, nonce, aad, text)| == |text| + AUTH_TAG_LEN
      ensures a.open(key, nonce, aad, a.seal(key, nonce, aad, text)) == Some(text)
    {
      UntagTagged(nonce, nonce, text);
    }
    forall key: bytes, nonce: bytes, other: bytes, aad: bytes, text: bytes |
        |nonce| == |other| == NONCE_LEN && nonce != other
      ensures a.open(key, other, aad, a.seal(key, nonce, aad, text)) == None
    {
      UntagTagged(nonce, other, text);
    }
    assert Correct(a);
  }

  function Tagged(nonce: bytes, text: bytes): bytes {
    text + TagFor(nonce)
  }

  function Untagged(nonce: bytes, sealed: bytes): Option<bytes> {
    var n := |sealed| - AUTH_TAG_LEN;
    if n >= 0 && sealed[n..] == TagFor(nonce) then Some(sealed[..n]) else None
  }

  function TagFor(nonce: bytes): (tag: bytes)
    ensures |tag| == AUTH_TAG_LEN
  {
    if |nonce| == NONCE_LEN then nonce + Repeat(0, AUTH_TAG_LEN - NONCE_LEN) else Repeat(0, AUTH_TAG_LEN)
  }

  lemma UntagTagged(nonce: bytes, other: bytes, text: bytes)
    ensures nonce == other ==> Untagged(other, Tagged(nonce, text)) == Some(text)
    ensures |nonce| == |other| == NONCE_LEN && nonce != other ==> Untagged(other, Tagged(nonce, text)) == None
  {
    var sealed := Tagged(nonce, text);
    assert sealed[..|text|] == text && sealed[|text|..] == TagFor(nonce);
    if |nonce| == |other| == NONCE_LEN && nonce != other {
      assert TagFor(nonce)[..NONCE_LEN] == nonce && TagFor(other)[..NONCE_LEN] == other;
    }
  }

  lemma {:induction false} StreamConcat(a: Aead, key: bytes, xs: seq<bytes>, k: nat, ys: seq<bytes>)
    ensures Stream(a, key, xs + ys, k) == Stream(a, key, xs, k) + Stream(a, key, ys, k + |xs|)
    ensures Flat(xs + ys) == Flat(xs) + Flat(ys)
    decreases |xs|
  {
    hide Frame, NonceAt;
    if xs == [] {
      assert xs + ys == ys;
    } else {
      assert (xs + ys)[1..] == xs[1..] + ys;
      StreamConcat(a, key, xs[1..], k + 1, ys);
    }
  }
}
