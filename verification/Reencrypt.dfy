/** The payout re-encryption migration of cmd/reencrypt-payouts/main.go with the payload
    format of pkg/payoutenc/enc.go. */
module Reencrypt {
  import opened Wrappers
  import opened Batches

  const BATCH_SIZE := 500

  // ---- payload format ----

  /** A decoded payout_details: Go's map[string]string, which may be nil. */
  type Payload = Option<map<string, string>>

  const NOTHING: Payload := None

  /** The parts of pkg/payoutenc that belong to other libraries: `parse` and `render` are
      JSON to and from a payload, `seal` is Encrypt followed by base64 and takes the
      random nonce, `open` undoes it, `envelope` reads the "_enc" member of a JSON text. */
  datatype Codec = Codec(
    enabled: bool,
    parse: string -> Option<Payload>, render: Payload -> string,
    seal: (string, nat) -> string, open: string -> Option<string>,
    envelope: string -> Option<string>)

  function Envelope(ciphertext: string): string {
    "{\"_enc\":\"" + ciphertext + "\"}"
  }

  /** A quote, any one character, then `enc` and a quote start at position i. */
  predicate QuotedEncAt(s: string, i: int) {
    0 <= i <= |s| - 6 && s[i] == '"' && s[i + 2..i + 6] == "enc\""
  }

  /** bytes.Contains(data, `"_enc"`). */
  predicate HasEnvelope(s: string) {
    exists i | 0 <= i < |s| :: QuotedEncAt(s, i) && s[i + 1] == '_'
  }

  function Marshal(c: Codec, p: Payload, nonce: nat): string {
    var raw := c.render(p);
    if !c.enabled then raw else Envelope(c.seal(raw, nonce))
  }

  /** None is an error. */
  function Unmarshal(c: Codec, data: string): Option<Payload> {
    if data == "" then Some(NOTHING)
    else if HasEnvelope(data) then
      if !c.enabled then None
      else
        match c.envelope(data)
        case None => None
        case Some(ciphertext) =>
          match c.open(ciphertext)
          case None => None
          case Some(plain) => c.parse(plain)
    else c.parse(data)
  }

  /** What the libraries promise: parsed payloads survive printing, sealed texts open
      again, and an envelope is read back. */
  ghost predicate Sound(c: Codec) {
    && c.enabled
    && c.parse(c.render(NOTHING)) == Some(NOTHING)
    && (forall s {:trigger c.render(c.parse(s).value)} ::
          c.parse(s).Some? ==> c.parse(c.render(c.parse(s).value)) == c.parse(s))
    && (forall s, n :: c.open(c.seal(s, n)) == Some(s))
    && (forall s, n :: c.envelope(Envelope(c.seal(s, n))) == Some(c.seal(s, n)))
  }

  /** reencryptDetails. */
  function ReencryptDetails(c: Codec, details: string, nonce: nat): Option<string> {
    match Unmarshal(c, details)
    case None => None
    case Some(p) => Some(Marshal(c, p, nonce))
  }

  // ---- table and query ----

  datatype Row = Row(id: int, details: Option<string>)

  /** In primary-key order. */
  type Table = seq<Row>

  predicate Sorted(t: Table) {
    forall i, j | 0 <= i < j < |t| :: t[i].id < t[j].id
  }

  /** SQL: text LIKE '%"_enc"%'. In a LIKE pattern `_` stands for any one character. */
  predicate MatchesLike(s: string) {
    exists i | 0 <= i < |s| :: QuotedEncAt(s, i)
  }

  predicate IsLegacy(r: Row) {
    r.details.Some? && r.details.value != "" && r.details.value != "{}" && !MatchesLike(r.details.value)
  }

  /** legacyRowsQuery without its LIMIT. */
  function Legacy(t: Table): seq<Row> { Kept(t, (r: Row) => IsLegacy(r)) }

  lemma LegacyMembers(t: Table)
    ensures forall r :: r in Legacy(t) <==> r in t && IsLegacy(r)
  {
    KeptMembers(t, (r: Row) => IsLegacy(r));
  }

  function FetchBatch(t: Table): seq<Row> {
    var rows := Legacy(t);
    rows[..Min(BATCH_SIZE, |rows|)]
  }

  /** The guarded UPDATE hits a row. */
  predicate Hits(t: Table, row: Row) { row in t }

  /** UPDATE ... WHERE id = row.id AND payout_details::text = row.details. */
  function Swap(t: Table, row: Row, new_: string): (u: Table)
    ensures |u| == |t|
  {
    seq(|t|, i requires 0 <= i < |t| => if t[i] == row then Row(row.id, Some(new_)) else t[i])
  }

  /** What the application reads from a column. */
  function View(c: Codec, details: Option<string>): Option<Payload> {
    if details.None? then Some(NOTHING) else Unmarshal(c, details.value)
  }

  /** The same rows with the same decoded contents. */
  predicate Alike(c: Codec, t: Table, u: Table) {
    && |t| == |u|
    && forall i | 0 <= i < |t| :: t[i].id == u[i].id && View(c, t[i].details) == View(c, u[i].details)
  }

  // ---- laws of the format ----

  lemma EnvelopeIsRecognised(ciphertext: string)
    ensures HasEnvelope(Envelope(ciphertext)) && MatchesLike(Envelope(ciphertext))
  {
    var s := Envelope(ciphertext);
    assert QuotedEncAt(s, 1) && s[2] == '_';
  }

  /** Unmarshal inverts Marshal on every payload that JSON itself preserves. */
  lemma UnmarshalInvertsMarshal(c: Codec, p: Payload, nonce: nat)
    requires Sound(c) && c.parse(c.render(p)) == Some(p)
    ensures Unmarshal(c, Marshal(c, p, nonce)) == Some(p)
  {
    EnvelopeIsRecognised(c.seal(c.render(p), nonce));
  }

  /** Without a key nothing is sealed, encrypted columns are refused, and a payload comes
      back exactly when its printed form, never an empty text, has no sentinel in it. */
  lemma WithoutKeyRoundTripExactlyWhen(c: Codec, p: Payload, nonce: nat)
    requires !c.enabled && c.render(p) != "" && c.parse(c.render(p)) == Some(p)
    ensures Marshal(c, p, nonce) == c.render(p)
    ensures Unmarshal(c, Marshal(c, p, nonce)) == Some(p) <==> !HasEnvelope(c.render(p))
    ensures HasEnvelope(c.render(p)) ==> Unmarshal(c, Marshal(c, p, nonce)).None?
  {
  }

  /** What a column reads as: nothing for an empty one, the payload that an envelope opens
      to, or the text itself as JSON. An envelope that does not open is never read as JSON. */
  lemma ReadsExactlyWhen(c: Codec, data: string, p: Payload)
    ensures Unmarshal(c, data) == Some(p) <==>
            || (data == "" && p == NOTHING)
            || (data != "" && !HasEnvelope(data) && c.parse(data) == Some(p))
            || (data != "" && c.enabled && Encrypted(c, data)
                && c.parse(c.open(c.envelope(data).value).value) == Some(p))
  {
  }

  /** The sentinel is the text `"_enc"` anywhere in the column. */
  lemma HasEnvelopeExactlyWhen(s: string)
    ensures HasEnvelope(s) <==> exists a, b :: s == a + "\"_enc\"" + b
  {
    if HasEnvelope(s) {
      var i :| 0 <= i < |s| && QuotedEncAt(s, i) && s[i + 1] == '_';
      assert s[i..i + 6] == "\"_enc\"" by {
        assert s[i + 2..i + 6] == s[i..i + 6][2..];
      }
      assert s == s[..i] + "\"_enc\"" + s[i + 6..];
    }
    if a, b :| s == a + "\"_enc\"" + b {
      assert s[|a|..|a| + 6] == "\"_enc\"";
      assert s[|a| + 2..|a| + 6] == s[|a|..|a| + 6][2..];
      assert QuotedEncAt(s, |a|) && s[|a| + 1] == '_';
    }
  }

  /** The pattern matches it with any character in the place of the underscore. */
  lemma MatchesLikeExactlyWhen(s: string)
    ensures MatchesLike(s) <==> exists a, x, b :: s == a + ['"', x] + "enc\"" + b
  {
    if MatchesLike(s) {
      var i :| 0 <= i < |s| && QuotedEncAt(s, i);
      assert s == s[..i] + ['"', s[i + 1]] + "enc\"" + s[i + 6..];
    }
    if a, x, b :| s == a + ['"', x] + "enc\"" + b {
      assert QuotedEncAt(s, |a|);
    }
  }

  /** Re-encryption fails exactly on undecodable text, and otherwise keeps the decoded
      payload and leaves the legacy set. */
  lemma ReencryptionPreservesView(c: Codec, details: string, nonce: nat)
    requires Sound(c)
    ensures var r := ReencryptDetails(c, details, nonce);
            && (r.None? <==> View(c, Some(details)).None?)
            && (r.Some? ==> View(c, r) == View(c, Some(details)) && HasEnvelope(r.value) && MatchesLike(r.value))
  {
    var v := Unmarshal(c, details);
    if v.Some? {
      UnmarshalInvertsMarshal(c, v.value, nonce);
      EnvelopeIsRecognised(c.seal(c.render(v.value), nonce));
    }
  }

  /** The SQL filter excludes every encrypted row. */
  lemma EncryptedRowsAreExcluded(s: string)
    requires HasEnvelope(s)
    ensures MatchesLike(s)
  {
  }

  /** A text the filter takes for encrypted although it carries no envelope: some quoted
      word of four characters that ends in "enc". */
  predicate LooksEncrypted(s: string) { MatchesLike(s) && !HasEnvelope(s) }

  /** Such texts exist, so a table without legacy rows may still hold plaintext. */
  lemma PlaintextCanBeMissed()
    ensures LooksEncrypted("{\"genc\":\"4111\"}")
    ensures Legacy([Row(1, Some("{\"genc\":\"4111\"}"))]) == []
  {
    var s := "{\"genc\":\"4111\"}";
    assert QuotedEncAt(s, 1);
  }

  // ---- what a finished migration leaves ----

  predicate Filled(r: Row) { r.details.Some? && r.details.value !in {"", "{}"} }

  /** The text is an envelope and its ciphertext opens. */
  predicate Encrypted(c: Codec, s: string) {
    HasEnvelope(s) && c.envelope(s).Some? && c.open(c.envelope(s).value).Some?
  }

  predicate AllEncrypted(c: Codec, t: Table) {
    forall r | r in t && Filled(r) :: Encrypted(c, r.details.value)
  }

  /** What the query passes over as encrypted really is. */
  predicate MatchesAreEncrypted(c: Codec, t: Table) {
    forall r | r in t && r.details.Some? && MatchesLike(r.details.value) :: Encrypted(c, r.details.value)
  }

  /** `u` is `t` with some filled rows that had no match encrypted; every other row, be it
      NULL, empty, "{}" or a match of the pattern, is byte for byte the same. */
  predicate Remediated(c: Codec, t: Table, u: Table) {
    && |t| == |u|
    && forall i | 0 <= i < |t| ::
         u[i] == t[i]
         || (&& Filled(t[i]) && !MatchesLike(t[i].details.value)
             && u[i].id == t[i].id && u[i].details.Some? && Encrypted(c, u[i].details.value))
  }

  lemma MarshalledIsEncrypted(c: Codec, p: Payload, nonce: nat)
    requires Sound(c)
    ensures Encrypted(c, Marshal(c, p, nonce))
  {
    EnvelopeIsRecognised(c.seal(c.render(p), nonce));
  }

  /** An encrypted row is no legacy row, so it is encrypted once and stays. */
  lemma RemediatedIsTransitive(c: Codec, t: Table, u: Table, v: Table)
    requires Remediated(c, t, u) && Remediated(c, u, v)
    ensures Remediated(c, t, v)
  {
    forall i | 0 <= i < |t|
      ensures v[i] == t[i]
           || (&& Filled(t[i]) && !MatchesLike(t[i].details.value)
               && v[i].id == t[i].id && v[i].details.Some? && Encrypted(c, v[i].details.value))
    {
      if u[i] != t[i] {
        EncryptedRowsAreExcluded(u[i].details.value);
      }
    }
  }

  lemma SwapRemediates(c: Codec, t: Table, row: Row, nonce: nat)
    requires Sound(c) && IsLegacy(row) && ReencryptDetails(c, row.details.value, nonce).Some?
    ensures Remediated(c, t, Swap(t, row, ReencryptDetails(c, row.details.value, nonce).value))
  {
    MarshalledIsEncrypted(c, Unmarshal(c, row.details.value).value, nonce);
  }

  /** Once no legacy row is left, every filled row is encrypted exactly when every row that
      the query passed over at the start already was. */
  lemma FullyEncryptedExactlyWhen(c: Codec, t: Table, u: Table)
    requires Remediated(c, t, u) && Legacy(u) == []
    ensures AllEncrypted(c, u) <==> MatchesAreEncrypted(c, t)
  {
    LegacyMembers(u);
    forall i | 0 <= i < |t| && Filled(u[i])
      ensures u[i] != t[i] ==> Encrypted(c, u[i].details.value)
      ensures u[i] == t[i] ==> MatchesLike(t[i].details.value)
    {
      assert u[i] in u && u[i] !in Legacy(u);
    }
    if AllEncrypted(c, u) {
      forall r | r in t && r.details.Some? && MatchesLike(r.details.value)
        ensures Encrypted(c, r.details.value)
      {
        var i :| 0 <= i < |t| && t[i] == r;
        assert u[i] == r && u[i] in u && Filled(r);
      }
    }
  }
}
