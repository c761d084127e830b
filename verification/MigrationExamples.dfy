/** Concrete inputs on which the payout migration of cmd/reencrypt-payouts/main.go does less
    than its comments say, for a small codec that keeps all the laws. */
module MigrationExamples {
  import opened Wrappers
  import opened Batches
  import opened Reencrypt
  import opened Migration

  // ---- a codec ----

  const PLAIN := "{\"iban\":\"7\"}"
  const CARD: Payload := Some(map["iban" := "7"])
  const NULL := "null"
  const OPENING := "{\"_enc\":\""

  function Parse(s: string): Option<Payload> {
    if s == NULL then Some(NOTHING) else if s == PLAIN then Some(CARD) else None
  }

  function Render(p: Payload): string { if p == CARD then PLAIN else NULL }

  function Seal(s: string, nonce: nat): string { "#" + s }

  function Open(s: string): Option<string> { if s != "" && s[0] == '#' then Some(s[1..]) else None }

  /** The "_enc" member, empty when there is none. */
  function ReadEnvelope(s: string): Option<string> {
    if |s| >= 11 && s[..9] == OPENING then Some(s[9..|s| - 2]) else Some("")
  }

  const SAMPLE := Codec(true, Parse, Render, Seal, Open, ReadEnvelope)

  lemma SampleIsSound()
    ensures Sound(SAMPLE)
  {
    assert NULL != PLAIN;
    forall s, n
      ensures SAMPLE.open(SAMPLE.seal(s, n)) == Some(s)
      ensures SAMPLE.envelope(Envelope(SAMPLE.seal(s, n))) == Some(SAMPLE.seal(s, n))
    {
      var sealed := Seal(s, n);
      assert sealed[1..] == s;
      var e := Envelope(sealed);
      assert e[..9] == OPENING && e[9..|e| - 2] == sealed;
    }
  }

  // ---- rows that stay plaintext ----

  /** A plaintext whose value, not its key, is the sentinel. */
  const SENTINEL_VALUE := "{\"bank\":\"_enc\"}"

  /** The query passes over it as encrypted, the application takes it for an envelope and
      cannot read it, and no ciphertext is there: a finished run leaves it so. */
  lemma SentinelCanBeAValue()
    ensures Sound(SAMPLE)
    ensures Legacy([Row(1, Some(SENTINEL_VALUE))]) == []
    ensures HasEnvelope(SENTINEL_VALUE) && !Encrypted(SAMPLE, SENTINEL_VALUE)
    ensures View(SAMPLE, Some(SENTINEL_VALUE)) == None
    ensures !MatchesAreEncrypted(SAMPLE, [Row(1, Some(SENTINEL_VALUE))])
  {
    SampleIsSound();
    assert QuotedEncAt(SENTINEL_VALUE, 8) && SENTINEL_VALUE[9] == '_';
    assert SENTINEL_VALUE[..9][2] == 'b' && OPENING[2] == '_';
    assert Row(1, Some(SENTINEL_VALUE)) in [Row(1, Some(SENTINEL_VALUE))];
  }

  // ---- rows that starve ----

  const BROKEN_TEXT := "{"

  function BrokenRowAt(id: int): Row { Row(id, Some(BROKEN_TEXT)) }

  const READABLE := Row(500, Some(PLAIN))

  /** Five hundred undecodable rows and a readable one after them. */
  const STARVING: Table := seq(500, i => BrokenRowAt(i)) + [READABLE]

  lemma NeedsAnE(s: string)
    requires 'e' !in s
    ensures !MatchesLike(s) && !HasEnvelope(s)
  {
    forall i | 0 <= i < |s|
      ensures !QuotedEncAt(s, i)
    {
      if i <= |s| - 6 {
        assert s[i + 2..i + 6][0] == s[i + 2] && s[i + 2] in s;
      }
    }
  }

  lemma AllLegacy()
    ensures Sorted(STARVING) && Legacy(STARVING) == STARVING
    ensures |Kept(seq(500, i => BrokenRowAt(i)), BrokenRow(SAMPLE))| == 500
  {
    assert IsLegacy(BrokenRowAt(0)) && Broken(SAMPLE, BrokenRowAt(0));
    NeedsAnE(PLAIN);
    EverythingKept(STARVING, (r: Row) => IsLegacy(r));
    EverythingKept(seq(500, i => BrokenRowAt(i)), BrokenRow(SAMPLE));
  }

  /** However many undisturbed passes the program makes, the readable row stays plaintext. */
  lemma FiveHundredBrokenRowsStarveTheNext(nonces: int -> nat, n: nat)
    ensures Sound(SAMPLE) && View(SAMPLE, READABLE.details) == Some(CARD)
    ensures READABLE in Legacy(TableAfter(SAMPLE, STARVING, nonces, n))
  {
    SampleIsSound();
    AllLegacy();
    var pre := seq(500, i => BrokenRowAt(i));
    assert STARVING == pre + [READABLE] + [];
    NeedsAnE(PLAIN);
    EncryptedEventuallyExactlyWhen(SAMPLE, STARVING, nonces, pre, READABLE, []);
  }
}
