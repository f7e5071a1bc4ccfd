/** The multi-recipient box: one header per recipient, each sealing the content key and the number of
    recipients, followed by the sealed content. */
module PrivateBox {
  import opened Wrappers

  const NONCEBYTES: nat := 24
  const PUBLICKEYBYTES: nat := 32
  const KEYBYTES: nat := 32
  const MACBYTES: nat := 16
  const RECIPIENT_COUNT_BYTES: nat := 1
  const HEADERBYTES: nat := KEYBYTES + RECIPIENT_COUNT_BYTES + MACBYTES
  const PREFIXBYTES: nat := NONCEBYTES + PUBLICKEYBYTES
  const MAX_RECIPIENTS: nat := 255

  /** Key agreement (from a private and a public key) and secret-key sealing (content, nonce, key). */
  datatype Crypto = Crypto(
    agree: (Bytes, Bytes) -> Option<Bytes>,
    seal: (Bytes, Bytes, Bytes) -> Bytes,
    open: (Bytes, Bytes, Bytes) -> Option<Bytes>)

  ghost predicate Lawful(c: Crypto) {
    && (forall m, n, k :: |c.seal(m, n, k)| == |m| + MACBYTES)
    && (forall m, n, k :: c.open(c.seal(m, n, k), n, k) == Some(m))
    && (forall x, n, k :: c.open(x, n, k).Some? ==> |x| == |c.open(x, n, k).value| + MACBYTES)
  }

  /** What an encryption draws at random. */
  datatype Draw = Draw(nonce: Bytes, publicKey: Bytes, privateKey: Bytes, key: Bytes)

  ghost predicate WellSized(d: Draw) {
    |d.nonce| == NONCEBYTES && |d.publicKey| == PUBLICKEYBYTES && |d.key| == KEYBYTES
  }

  // ---------------------------------------------------------------- encryption

  function Header(c: Crypto, d: Draw, count: byte, publicKey: Bytes): Bytes
    requires c.agree(d.privateKey, publicKey).Some?
  {
    c.seal(d.key + [count], d.nonce, c.agree(d.privateKey, publicKey).value)
  }

  predicate Acceptable(c: Crypto, d: Draw, publicKeys: seq<Bytes>) {
    forall i :: 0 <= i < |publicKeys| ==> c.agree(d.privateKey, publicKeys[i]).Some?
  }

  function Headers(c: Crypto, d: Draw, count: byte, publicKeys: seq<Bytes>): Bytes
    requires Acceptable(c, d, publicKeys)
  {
    if publicKeys == [] then
      []
    else
      Headers(c, d, count, publicKeys[..|publicKeys| - 1]) + Header(c, d, count, publicKeys[|publicKeys| - 1])
  }

  function Box(c: Crypto, d: Draw, plaintext: Bytes, publicKeys: seq<Bytes>): Bytes
    requires Acceptable(c, d, publicKeys) && |publicKeys| <= MAX_RECIPIENTS
  {
    d.nonce + d.publicKey + Headers(c, d, |publicKeys|, publicKeys) + c.seal(plaintext, d.nonce, d.key)
  }

  /** There is a box exactly when there are at most 255 keys and all of them are acceptable. */
  method Encrypt(c: Crypto, d: Draw, plaintext: Bytes, publicKeys: seq<Bytes>) returns (box: Option<Bytes>)
    ensures box.Some? <==> |publicKeys| <= MAX_RECIPIENTS && Acceptable(c, d, publicKeys)
    ensures box.Some? ==> box.value == Box(c, d, plaintext, publicKeys)
  {
    var ciphertext := d.nonce + d.publicKey;
    if |publicKeys| > MAX_RECIPIENTS {
      return None;
    }
    var keyWithRecipientCount := d.key + [|publicKeys|];
    for i := 0 to |publicKeys|
      invariant Acceptable(c, d, publicKeys[..i])
      invariant ciphertext == d.nonce + d.publicKey + Headers(c, d, |publicKeys|, publicKeys[..i])
    {
      var sharedKey := c.agree(d.privateKey, publicKeys[i]);
      if sharedKey.None? {
        return None;
      }
      assert publicKeys[..i + 1][..i] == publicKeys[..i];
      ciphertext := ciphertext + c.seal(keyWithRecipientCount, d.nonce, sharedKey.value);
    }
    assert publicKeys[..|publicKeys|] == publicKeys;
    return Some(ciphertext + c.seal(plaintext, d.nonce, d.key));
  }

  // ---------------------------------------------------------------- decryption

  /** `Underflowed` stands for the subtraction of the position from the recipient count leaving the range
      of an unsigned byte: a panic or a wrapped number, depending on how the program was built. */
  datatype Outcome = Opened(plaintext: Bytes) | Refused | Underflowed

  function HeaderStart(k: nat): nat {
    PREFIXBYTES + k * HEADERBYTES
  }

  predicate HasHeader(box: Bytes, k: nat) {
    HeaderStart(k) + HEADERBYTES <= |box|
  }

  function HeaderAt(box: Bytes, k: nat): Bytes
    requires HasHeader(box, k)
  {
    box[HeaderStart(k)..HeaderStart(k) + HEADERBYTES]
  }

  function Opening(c: Crypto, box: Bytes, sharedKey: Bytes, k: nat): Option<Bytes> {
    if HasHeader(box, k) then c.open(HeaderAt(box, k), box[..NONCEBYTES], sharedKey) else None
  }

  /** The `k`-th header is the first that the key opens. Only 255 headers are tried. */
  ghost predicate FirstOpening(c: Crypto, box: Bytes, sharedKey: Bytes, k: nat) {
    && k < MAX_RECIPIENTS
    && Opening(c, box, sharedKey, k).Some?
    && forall j :: 0 <= j < k ==> Opening(c, box, sharedKey, j).None?
  }

  /** What follows once header `k` has given up `secret`: the headers it counts are skipped, and the rest of
      the box is opened with the key in it. */
  function Content(c: Crypto, box: Bytes, k: nat, secret: Bytes): Outcome
    requires |box| >= PREFIXBYTES && |secret| == KEYBYTES + RECIPIENT_COUNT_BYTES
  {
    var count := secret[KEYBYTES];
    if count < k + 1 then
      Underflowed
    else if HeaderStart(count) > |box| then
      Refused
    else
      match c.open(box[HeaderStart(count)..], box[..NONCEBYTES], secret[..KEYBYTES])
      case Some(plaintext) => Opened(plaintext)
      case None => Refused
  }

  lemma OpenedSecretSize(c: Crypto, box: Bytes, sharedKey: Bytes, k: nat)
    requires Lawful(c) && Opening(c, box, sharedKey, k).Some?
    ensures |Opening(c, box, sharedKey, k).value| == KEYBYTES + RECIPIENT_COUNT_BYTES
    ensures |box| >= PREFIXBYTES
  {
  }

  /** What a private key makes of any bytes whatever. */
  ghost predicate Reading(c: Crypto, box: Bytes, privateKey: Bytes, outcome: Outcome)
    requires Lawful(c)
  {
    if |box| < PREFIXBYTES || c.agree(privateKey, box[NONCEBYTES..PREFIXBYTES]).None? then
      outcome == Refused
    else
      var sharedKey := c.agree(privateKey, box[NONCEBYTES..PREFIXBYTES]).value;
      && (forall k :: FirstOpening(c, box, sharedKey, k) ==>
                        (OpenedSecretSize(c, box, sharedKey, k);
                         outcome == Content(c, box, k, Opening(c, box, sharedKey, k).value)))
      && ((forall k :: !FirstOpening(c, box, sharedKey, k)) ==> outcome == Refused)
  }

  method Decrypt(c: Crypto, box: Bytes, privateKey: Bytes) returns (outcome: Outcome)
    requires Lawful(c)
    ensures Reading(c, box, privateKey, outcome)
  {
    var counter: nat := 0;
    // Advancing moves the cursor even when it runs past the end; nothing is read after that.
    counter := counter + NONCEBYTES;
    if counter > |box| {
      return Refused;
    }
    var nonce := box[..counter];
    counter := counter + PUBLICKEYBYTES;
    if counter > |box| {
      return Refused;
    }
    var agreed := c.agree(privateKey, box[NONCEBYTES..counter]);
    if agreed.None? {
      return Refused;
    }
    var sharedKey := agreed.value;
    var iteration: byte := 0;
    counter := counter + HEADERBYTES;
    while counter <= |box|
      invariant counter == HeaderStart(iteration) + HEADERBYTES
      invariant forall j :: 0 <= j < iteration ==> Opening(c, box, sharedKey, j).None?
      decreases MAX_RECIPIENTS - iteration
    {
      if iteration == MAX_RECIPIENTS {
        return Refused;
      }
      ghost var k: nat := iteration;
      assert HeaderAt(box, k) == box[counter - HEADERBYTES..counter];
      var attempt := c.open(box[counter - HEADERBYTES..counter], nonce, sharedKey);
      iteration := iteration + 1;
      if attempt.Some? {
        assert FirstOpening(c, box, sharedKey, k);
        assert forall j :: FirstOpening(c, box, sharedKey, j) ==> j == k;
        OpenedSecretSize(c, box, sharedKey, k);
        var decrypted := attempt.value;
        var recipientCount := decrypted[|decrypted| - 1];
        var key := decrypted[..|decrypted| - 1];
        if recipientCount < iteration {
          return Underflowed;
        }
        var remainingCount := recipientCount - iteration;
        counter := counter + remainingCount * HEADERBYTES;
        assert counter == HeaderStart(recipientCount);
        if counter > |box| {
          return Refused;
        }
        match c.open(box[counter..], nonce, key) {
          case Some(plaintext) => return Opened(plaintext);
          case None => return Refused;
        }
      }
      counter := counter + HEADERBYTES;
    }
    return Refused;
  }

  /** Header `k` is the first that the key opens, and the bytes from `start` on, which is where the headers that it
      counts end, open to `plaintext` under the key in it. */
  ghost predicate OpensAt(c: Crypto, box: Bytes, sharedKey: Bytes, plaintext: Bytes, k: nat, start: nat)
    requires Lawful(c)
  {
    && FirstOpening(c, box, sharedKey, k)
    && HeaderStart(k + 1) <= start <= |box|
    && var secret := Opening(c, box, sharedKey, k).value;
       OpenedSecretSize(c, box, sharedKey, k);
       && start == HeaderStart(secret[KEYBYTES])
       && c.open(box[start..], box[..NONCEBYTES], secret[..KEYBYTES]) == Some(plaintext)
  }

  /** Whatever the bytes, a plaintext is returned exactly when some tail of them opens to it. */
  lemma OpenedExactly(c: Crypto, box: Bytes, privateKey: Bytes, outcome: Outcome, plaintext: Bytes)
    requires Lawful(c) && Reading(c, box, privateKey, outcome)
    ensures outcome == Opened(plaintext) <==>
            && |box| >= PREFIXBYTES && c.agree(privateKey, box[NONCEBYTES..PREFIXBYTES]).Some?
            && var sharedKey := c.agree(privateKey, box[NONCEBYTES..PREFIXBYTES]).value;
               exists k, start :: OpensAt(c, box, sharedKey, plaintext, k, start)
  {
    if |box| >= PREFIXBYTES && c.agree(privateKey, box[NONCEBYTES..PREFIXBYTES]).Some? {
      var sharedKey := c.agree(privateKey, box[NONCEBYTES..PREFIXBYTES]).value;
      if k :| FirstOpening(c, box, sharedKey, k) {
        OpenedSecretSize(c, box, sharedKey, k);
        var secret := Opening(c, box, sharedKey, k).value;
        assert outcome == Content(c, box, k, secret);
        if outcome == Opened(plaintext) {
          assert OpensAt(c, box, sharedKey, plaintext, k, HeaderStart(secret[KEYBYTES]));
        } else if j, start :| OpensAt(c, box, sharedKey, plaintext, j, start) {
          assert j == k;
        }
      }
    }
  }

  // ---------------------------------------------------------------- round trip

  lemma {:induction false} HeadersAreFramed(c: Crypto, d: Draw, count: byte, publicKeys: seq<Bytes>, k: nat)
    requires Lawful(c) && WellSized(d) && Acceptable(c, d, publicKeys)
    ensures |Headers(c, d, count, publicKeys)| == |publicKeys| * HEADERBYTES
    ensures k < |publicKeys| ==>
              k * HEADERBYTES + HEADERBYTES <= |Headers(c, d, count, publicKeys)|
              && Headers(c, d, count, publicKeys)[k * HEADERBYTES..k * HEADERBYTES + HEADERBYTES]
                 == Header(c, d, count, publicKeys[k])
    decreases |publicKeys|
  {
    if publicKeys != [] {
      var last := |publicKeys| - 1;
      HeadersAreFramed(c, d, count, publicKeys[..last], k);
      assert |Header(c, d, count, publicKeys[last])| == HEADERBYTES;
    }
  }

  lemma BoxIsFramed(c: Crypto, d: Draw, plaintext: Bytes, publicKeys: seq<Bytes>)
    requires Lawful(c) && WellSized(d) && Acceptable(c, d, publicKeys) && |publicKeys| <= MAX_RECIPIENTS
    ensures var box := Box(c, d, plaintext, publicKeys);
            && |box| >= HeaderStart(|publicKeys|)
            && box[..NONCEBYTES] == d.nonce
            && box[NONCEBYTES..PREFIXBYTES] == d.publicKey
            && box[HeaderStart(|publicKeys|)..] == c.seal(plaintext, d.nonce, d.key)
            && (forall k :: 0 <= k < |publicKeys| ==>
                              && HasHeader(box, k)
                              && HeaderAt(box, k) ==
                                 c.seal(d.key + [|publicKeys|], d.nonce, c.agree(d.privateKey, publicKeys[k]).value))
  {
    var box := Box(c, d, plaintext, publicKeys);
    var headers := Headers(c, d, |publicKeys|, publicKeys);
    HeadersAreFramed(c, d, |publicKeys|, publicKeys, 0);
    forall k | 0 <= k < |publicKeys|
      ensures HasHeader(box, k) && HeaderAt(box, k) == Header(c, d, |publicKeys|, publicKeys[k])
    {
      HeadersAreFramed(c, d, |publicKeys|, publicKeys, k);
      assert HeaderAt(box, k) == headers[k * HEADERBYTES..k * HEADERBYTES + HEADERBYTES];
    }
  }

  /** The headers before the `i`-th that are not for the same shared key do not open under it. */
  ghost predicate Separated(c: Crypto, d: Draw, publicKeys: seq<Bytes>, i: nat)
    requires Acceptable(c, d, publicKeys) && i < |publicKeys| <= MAX_RECIPIENTS
  {
    var sharedKey := c.agree(d.privateKey, publicKeys[i]).value;
    forall j :: 0 <= j < i && c.agree(d.privateKey, publicKeys[j]) != Some(sharedKey) ==>
                  c.open(Header(c, d, |publicKeys|, publicKeys[j]), d.nonce, sharedKey).None?
  }

  /** Every recipient opens the box: at every position, with any number of repeated keys, and without
      leaving the range of a byte on the way. */
  lemma EveryRecipientOpens(
    c: Crypto, d: Draw, plaintext: Bytes, publicKeys: seq<Bytes>, i: nat, privateKey: Bytes, outcome: Outcome)
    requires Lawful(c) && WellSized(d)
    requires Acceptable(c, d, publicKeys) && i < |publicKeys| <= MAX_RECIPIENTS
    requires c.agree(privateKey, d.publicKey) == c.agree(d.privateKey, publicKeys[i])
    requires Separated(c, d, publicKeys, i)
    requires Reading(c, Box(c, d, plaintext, publicKeys), privateKey, outcome)
    ensures outcome == Opened(plaintext)
  {
    var box := Box(c, d, plaintext, publicKeys);
    var sharedKey := c.agree(d.privateKey, publicKeys[i]).value;
    BoxIsFramed(c, d, plaintext, publicKeys);
    var k := FirstFor(c, d, publicKeys, i);
    forall j | 0 <= j < k ensures Opening(c, box, sharedKey, j).None? {
      assert HeaderAt(box, j) == Header(c, d, |publicKeys|, publicKeys[j]);
    }
    var secret := d.key + [|publicKeys|];
    assert HeaderAt(box, k) == Header(c, d, |publicKeys|, publicKeys[k]);
    assert Opening(c, box, sharedKey, k) == Some(secret);
    assert FirstOpening(c, box, sharedKey, k);
    assert secret[..KEYBYTES] == d.key && secret[KEYBYTES] == |publicKeys|;
  }

  /** The first position whose shared key is that of position `i`. */
  lemma {:induction false} FirstFor(c: Crypto, d: Draw, publicKeys: seq<Bytes>, i: nat) returns (k: nat)
    requires i < |publicKeys|
    ensures k <= i && c.agree(d.privateKey, publicKeys[k]) == c.agree(d.privateKey, publicKeys[i])
    ensures forall j :: 0 <= j < k ==> c.agree(d.privateKey, publicKeys[j]) != c.agree(d.privateKey, publicKeys[i])
  {
    if j :| 0 <= j < i && c.agree(d.privateKey, publicKeys[j]) == c.agree(d.privateKey, publicKeys[i]) {
      k := FirstFor(c, d, publicKeys, j);
    } else {
      k := i;
    }
  }

  /** The two methods one after the other. */
  method SealAndOpen(c: Crypto, d: Draw, plaintext: Bytes, publicKeys: seq<Bytes>, i: nat, privateKey: Bytes)
    returns (outcome: Option<Outcome>)
    requires Lawful(c) && WellSized(d) && i < |publicKeys|
    requires c.agree(privateKey, d.publicKey) == c.agree(d.privateKey, publicKeys[i])
    requires |publicKeys| <= MAX_RECIPIENTS && Acceptable(c, d, publicKeys) ==> Separated(c, d, publicKeys, i)
    ensures outcome ==
            if |publicKeys| <= MAX_RECIPIENTS && Acceptable(c, d, publicKeys)
            then Some(Opened(plaintext)) else None
  {
    var box := Encrypt(c, d, plaintext, publicKeys);
    if box.None? {
      return None;
    }
    var reading := Decrypt(c, box.value, privateKey);
    EveryRecipientOpens(c, d, plaintext, publicKeys, i, privateKey, reading);
    return Some(reading);
  }

  /** The first header the key opens counts fewer recipients than there are headers up to it. */
  ghost predicate Miscounted(c: Crypto, box: Bytes, privateKey: Bytes) {
    && |box| >= PREFIXBYTES && c.agree(privateKey, box[NONCEBYTES..PREFIXBYTES]).Some?
    && exists k :: MiscountedAt(c, box, c.agree(privateKey, box[NONCEBYTES..PREFIXBYTES]).value, k)
  }

  ghost predicate MiscountedAt(c: Crypto, box: Bytes, sharedKey: Bytes, k: nat) {
    && FirstOpening(c, box, sharedKey, k)
    && |Opening(c, box, sharedKey, k).value| == KEYBYTES + RECIPIENT_COUNT_BYTES
    && Opening(c, box, sharedKey, k).value[KEYBYTES] < k + 1
  }

  /** On any bytes whatever, the subtraction leaves the range of a byte exactly when they are miscounted. */
  lemma UnderflowExactly(c: Crypto, box: Bytes, privateKey: Bytes, outcome: Outcome)
    requires Lawful(c) && Reading(c, box, privateKey, outcome)
    ensures outcome.Underflowed? <==> Miscounted(c, box, privateKey)
  {
    if |box| >= PREFIXBYTES && c.agree(privateKey, box[NONCEBYTES..PREFIXBYTES]).Some? {
      var sharedKey := c.agree(privateKey, box[NONCEBYTES..PREFIXBYTES]).value;
      if k :| FirstOpening(c, box, sharedKey, k) {
        assert forall j :: FirstOpening(c, box, sharedKey, j) ==> j == k;
        OpenedSecretSize(c, box, sharedKey, k);
        hide FirstOpening, Opening;
        assert outcome.Underflowed? <==> MiscountedAt(c, box, sharedKey, k);
      }
    }
  }

  /** A header that counts nobody, and anything after it. */
  function CountingNobody(c: Crypto, d: Draw, publicKey: Bytes, rest: Bytes): Bytes
    requires c.agree(d.privateKey, publicKey).Some?
  {
    d.nonce + d.publicKey + Header(c, d, 0, publicKey) + rest
  }

  /** Such bytes are miscounted for whoever the header is sealed for. */
  lemma CountingNobodyUnderflows(
    c: Crypto, d: Draw, publicKey: Bytes, rest: Bytes, privateKey: Bytes, outcome: Outcome)
    requires Lawful(c) && WellSized(d) && c.agree(d.privateKey, publicKey).Some?
    requires c.agree(privateKey, d.publicKey) == c.agree(d.privateKey, publicKey)
    ensures Reading(c, CountingNobody(c, d, publicKey, rest), privateKey, outcome) <==> outcome == Underflowed
  {
    var box, sharedKey := CountingNobody(c, d, publicKey, rest), c.agree(d.privateKey, publicKey).value;
    var secret: Bytes := d.key + [0];
    assert |Header(c, d, 0, publicKey)| == HEADERBYTES;
    assert box[..NONCEBYTES] == d.nonce && box[NONCEBYTES..PREFIXBYTES] == d.publicKey;
    assert HeaderAt(box, 0) == Header(c, d, 0, publicKey);
    assert Opening(c, box, sharedKey, 0) == Some(secret) && secret[KEYBYTES] == 0;
    assert FirstOpening(c, box, sharedKey, 0);
    assert forall k :: FirstOpening(c, box, sharedKey, k) ==> k == 0;
    hide FirstOpening, Opening;
  }

  /** What the encoder makes is never miscounted for a recipient. */
  lemma EncodedIsNotMiscounted(
    c: Crypto, d: Draw, plaintext: Bytes, publicKeys: seq<Bytes>, i: nat, privateKey: Bytes, outcome: Outcome)
    requires Lawful(c) && WellSized(d)
    requires Acceptable(c, d, publicKeys) && i < |publicKeys| <= MAX_RECIPIENTS
    requires c.agree(privateKey, d.publicKey) == c.agree(d.privateKey, publicKeys[i])
    requires Separated(c, d, publicKeys, i)
    requires Reading(c, Box(c, d, plaintext, publicKeys), privateKey, outcome)
    ensures !Miscounted(c, Box(c, d, plaintext, publicKeys), privateKey)
  {
    EveryRecipientOpens(c, d, plaintext, publicKeys, i, privateKey, outcome);
    UnderflowExactly(c, Box(c, d, plaintext, publicKeys), privateKey, outcome);
  }

  // ---------------------------------------------------------------- the laws can be met

  function Tag(key: Bytes): Bytes {
    seq(MACBYTES, i requires 0 <= i < MACBYTES => if i < |key| then key[i] else 0)
  }

  function Mix(a: byte, b: byte): byte {
    if a + b < 256 then a + b else a + b - 256
  }

  function ToyAgree(a: Bytes, b: Bytes): Option<Bytes> {
    if |a| == KEYBYTES && |b| == KEYBYTES then
      Some(seq(KEYBYTES, i requires 0 <= i < KEYBYTES && |a| == KEYBYTES && |b| == KEYBYTES => Mix(a[i], b[i])))
    else
      None
  }

  /** A toy instance: a private key is its own public key, and the sealed form is the content behind a tag
      taken from the key. */
  const TOY := Crypto(
    (a, b) => ToyAgree(a, b),
    (m, n, k) => Tag(k) + m,
    (x, n, k) => if |x| >= MACBYTES && x[..MACBYTES] == Tag(k) then Some(x[MACBYTES..]) else None)

  lemma LawsCanBeMet()
    ensures Lawful(TOY)
    ensures forall a, b :: TOY.agree(a, b) == TOY.agree(b, a)
    ensures forall a, b :: |a| == KEYBYTES == |b| ==> TOY.agree(a, b).Some?
  {
    forall a, b ensures TOY.agree(a, b) == TOY.agree(b, a) {
      if |a| == KEYBYTES == |b| {
        var one, two := ToyAgree(a, b).value, ToyAgree(b, a).value;
        assert forall i :: 0 <= i < KEYBYTES ==> one[i] == two[i];
        assert one == two;
      }
    }
    forall m, n, k ensures TOY.open(TOY.seal(m, n, k), n, k) == Some(m) {
      var sealed := Tag(k) + m;
      assert sealed[..MACBYTES] == Tag(k) && sealed[MACBYTES..] == m;
    }
  }

  function Zeros(n: nat): Bytes {
    seq(n, i => 0)
  }

  const DRAW := Draw(Zeros(NONCEBYTES), Zeros(PUBLICKEYBYTES), Zeros(KEYBYTES), Zeros(KEYBYTES))

  lemma ToyAgreement(publicKey: Bytes)
    requires |publicKey| == KEYBYTES
    ensures TOY.agree(DRAW.privateKey, publicKey) == Some(publicKey) == TOY.agree(publicKey, DRAW.publicKey)
  {
    var there, back := ToyAgree(DRAW.privateKey, publicKey).value, ToyAgree(publicKey, DRAW.publicKey).value;
    assert forall i :: 0 <= i < KEYBYTES ==> there[i] == publicKey[i] == back[i];
    assert there == publicKey == back;
  }

  /** Keys that differ early enough keep their headers apart. */
  lemma ToySeparates(publicKeys: seq<Bytes>, i: nat)
    requires i < |publicKeys| <= MAX_RECIPIENTS
    requires forall j :: 0 <= j < |publicKeys| ==> |publicKeys[j]| == KEYBYTES
    requires forall j :: 0 <= j < |publicKeys| && publicKeys[j] != publicKeys[i] ==>
                           publicKeys[j][..MACBYTES] != publicKeys[i][..MACBYTES]
    ensures Acceptable(TOY, DRAW, publicKeys) && Separated(TOY, DRAW, publicKeys, i)
  {
    forall j | 0 <= j < |publicKeys|
      ensures TOY.agree(DRAW.privateKey, publicKeys[j]) == Some(publicKeys[j])
    {
      ToyAgreement(publicKeys[j]);
    }
    forall j | 0 <= j < i && publicKeys[j] != publicKeys[i]
      ensures TOY.open(Header(TOY, DRAW, |publicKeys|, publicKeys[j]), DRAW.nonce, publicKeys[i]).None?
    {
      var header := Header(TOY, DRAW, |publicKeys|, publicKeys[j]);
      assert header[..MACBYTES] == Tag(publicKeys[j]) == publicKeys[j][..MACBYTES];
      assert Tag(publicKeys[i]) == publicKeys[i][..MACBYTES];
    }
  }

  /** All that the round trip asks for is met at once: here by two different recipients, whichever reads. */
  lemma RoundTripCanBeAsked(i: nat) returns (publicKeys: seq<Bytes>)
    requires i < 2
    ensures |publicKeys| == 2 && publicKeys[0] != publicKeys[1]
    ensures Lawful(TOY) && WellSized(DRAW) && Acceptable(TOY, DRAW, publicKeys)
    ensures TOY.agree(publicKeys[i], DRAW.publicKey) == TOY.agree(DRAW.privateKey, publicKeys[i])
    ensures Separated(TOY, DRAW, publicKeys, i)
  {
    publicKeys := [Zeros(KEYBYTES), seq(KEYBYTES, k => 1)];
    LawsCanBeMet();
    assert publicKeys[0][..MACBYTES][0] == 0 && publicKeys[1][..MACBYTES][0] == 1;
    ToyAgreement(publicKeys[i]);
    ToySeparates(publicKeys, i);
  }

  /** Bytes on which the subtraction does leave the range of a byte. */
  lemma UnderflowHappens(rest: Bytes) returns (box: Bytes, privateKey: Bytes)
    ensures Lawful(TOY)
    ensures forall outcome :: Reading(TOY, box, privateKey, outcome) <==> outcome == Underflowed
  {
    LawsCanBeMet();
    privateKey := Zeros(KEYBYTES);
    ToyAgreement(privateKey);
    box := CountingNobody(TOY, DRAW, privateKey, rest);
    hide Reading, Lawful;
    forall outcome ensures Reading(TOY, box, privateKey, outcome) <==> outcome == Underflowed {
      CountingNobodyUnderflows(TOY, DRAW, privateKey, rest, privateKey, outcome);
    }
  }
}
