/** The two cryptographic collaborators of the user service, kept abstract:
    the password hasher (BCrypt in the running system) and the signed-claims
    codec (a JSON Web Token, RFC 7519, signed with HMAC SHA-256 as a JSON Web
    Signature, RFC 7515, under one process-wide key).

    Each is a record of functions. What the service relies on is stated as
    predicates over that record, and the lemmas that need them take them as
    preconditions. `ModelHasher` and `ModelCodec` are toy instances that meet
    every predicate, so those preconditions can be met. */
module Crypto {
  import opened Common

  /** `encode` hashes a password; `matches(plain, hash)` checks one against a hash. */
  datatype Hasher = Hasher(encode: string -> string, matches: (string, string) -> bool)

  /** A password is accepted against its own hash. */
  ghost predicate Verifies(h: Hasher) {
    forall plain: string :: h.matches(plain, h.encode(plain))
  }

  /** A hash is never the password it was computed from. */
  ghost predicate Hides(h: Hasher) {
    forall plain: string :: h.encode(plain) != plain
  }

  /** The claims the service signs into a token: `sub`, `iat` and `exp` of
      RFC 7519 plus the private claims `userId` and `email`. Instants are in
      milliseconds. */
  datatype Claims = Claims(subject: string, userId: nat, email: string, issuedAt: nat, expiresAt: nat)

  /** What parsing a token yields: its subject (absent when the token carries
      none); the library's expiry exception; any other of its JWT exceptions
      (`Invalid`); or the `IllegalArgumentException` with which the library
      refuses a string that holds no text (`ArgumentRejected`), which is not a
      JWT exception. */
  datatype Parsed = Valid(subject: Option<string>) | Expired | Invalid | ArgumentRejected

  /** Java's `Character.isWhitespace`: the ASCII controls for tab, line feed,
      vertical tab, form feed, carriage return and the four separators
      U+001C-U+001F, and the Unicode space, line and paragraph separators other
      than the non-breaking ones (U+00A0, U+2007, U+202F). */
  predicate IsWhitespace(ch: char) {
    || ch == ' ' || ch == '\t' || ch == '\n' || ch == '\U{000B}' || ch == '\U{000C}' || ch == '\r'
    || ('\U{001C}' <= ch <= '\U{001F}')
    || ch == '\U{1680}' || ('\U{2000}' <= ch <= '\U{2006}') || ('\U{2008}' <= ch <= '\U{200A}')
    || ch == '\U{2028}' || ch == '\U{2029}' || ch == '\U{205F}' || ch == '\U{3000}'
  }

  /** `s` holds no text: every character is whitespace (the empty string too). */
  predicate IsBlank(s: string) {
    forall k :: 0 <= k < |s| ==> IsWhitespace(s[k])
  }

  /** `issue` signs claims into a compact token; `parse(token, now)` checks the
      signature and the expiry at instant `now`. */
  datatype Codec = Codec(issue: Claims -> string, parse: (string, nat) -> Parsed)

  /** The expiry instant a token actually carries: RFC 7519 NumericDate values
      are whole seconds, so the milliseconds are truncated away. */
  function ExpiryInstant(expiresAt: nat): (t: nat)
    ensures t <= expiresAt < t + 1000
    ensures t % 1000 == 0
  {
    expiresAt / 1000 * 1000
  }

  /** `p` is a successful parse whose subject is `subject`. A library may drop
      an empty subject, so for the empty string an absent one is allowed too. */
  ghost predicate CarriesSubject(p: Parsed, subject: string) {
    p.Valid? && (p.subject == Some(subject) || (subject == "" && p.subject == None))
  }

  /** Before its expiry instant, an issued token parses back to its subject. */
  ghost predicate AcceptsBeforeExpiry(c: Codec) {
    forall cl: Claims, now: nat ::
      now < ExpiryInstant(cl.expiresAt) ==> CarriesSubject(c.parse(c.issue(cl), now), cl.subject)
  }

  /** After its expiry instant, an issued token is reported expired. */
  ghost predicate RejectsAfterExpiry(c: Codec) {
    forall cl: Claims, now: nat ::
      now > ExpiryInstant(cl.expiresAt) ==> c.parse(c.issue(cl), now) == Expired
  }

  /** A compact serialisation is never empty and, being base64url parts
      joined by '.', holds no space (RFC 7515, section 7.1). */
  ghost predicate IssuesCompact(c: Codec) {
    forall cl: Claims :: |c.issue(cl)| > 0 && ' ' !in c.issue(cl)
  }

  /** Only tokens issued under the key parse successfully: a tampered or
      foreign token never does. */
  ghost predicate Unforgeable(c: Codec) {
    forall v: string, now: nat :: c.parse(v, now).Valid? ==> exists cl: Claims :: c.issue(cl) == v
  }

  /** The parser refuses exactly the strings without text, with its
      argument exception rather than a JWT exception. */
  ghost predicate RejectsBlank(c: Codec) {
    forall v: string, now: nat :: c.parse(v, now) == ArgumentRejected <==> IsBlank(v)
  }

  ghost predicate Sound(c: Codec) {
    && AcceptsBeforeExpiry(c)
    && RejectsAfterExpiry(c)
    && IssuesCompact(c)
    && Unforgeable(c)
    && RejectsBlank(c)
  }

  // A toy hasher: a hash is the password behind a '$'.

  function ModelEncode(plain: string): string {
    "$" + plain
  }

  function ModelMatches(plain: string, hash: string): bool {
    hash == "$" + plain
  }

  const ModelHasher := Hasher(ModelEncode, ModelMatches)

  lemma ModelHasherSound()
    ensures Verifies(ModelHasher) && Hides(ModelHasher)
  {
  }

  // A toy codec: a token is its expiry written in unary, a '.', and the
  // subject with its spaces escaped. It signs nothing, but it meets every
  // predicate above.

  function Ones(n: nat): (s: string)
    ensures |s| == n
    ensures forall i :: 0 <= i < n ==> s[i] == '1'
  {
    seq(n, _ => '1')
  }

  /** The length of the run of '1's that starts `s`. */
  function LeadingOnes(s: string): (n: nat)
    ensures n <= |s|
    ensures forall i :: 0 <= i < n ==> s[i] == '1'
    ensures n < |s| ==> s[n] != '1'
  {
    if |s| > 0 && s[0] == '1' then 1 + LeadingOnes(s[1..]) else 0
  }

  /** Writes ' ' as "+0" and '+' as "+1"; every other character stands for itself. */
  function Escape(s: string): (r: string)
    ensures ' ' !in r
  {
    if |s| == 0 then []
    else if s[0] == ' ' then "+0" + Escape(s[1..])
    else if s[0] == '+' then "+1" + Escape(s[1..])
    else [s[0]] + Escape(s[1..])
  }

  function Unescape(v: string): Option<string> {
    if |v| == 0 then Some([])
    else if v[0] == '+' then
      if |v| >= 2 && (v[1] == '0' || v[1] == '1') then
        match Unescape(v[2..])
        case None => None
        case Some(rest) => Some([if v[1] == '0' then ' ' else '+'] + rest)
      else None
    else if v[0] == ' ' then None
    else
      match Unescape(v[1..])
      case None => None
      case Some(rest) => Some([v[0]] + rest)
  }

  lemma {:induction false} UnescapeEscape(s: string)
    ensures Unescape(Escape(s)) == Some(s)
  {
    if |s| > 0 {
      UnescapeEscape(s[1..]);
      var e := Escape(s);
      if s[0] == ' ' || s[0] == '+' {
        assert e[2..] == Escape(s[1..]);
      } else {
        assert e[1..] == Escape(s[1..]);
      }
      assert s == [s[0]] + s[1..];
    }
  }

  lemma {:induction false} EscapeUnescape(v: string)
    requires Unescape(v).Some?
    ensures Escape(Unescape(v).value) == v
  {
    if |v| > 0 {
      var s := Unescape(v).value;
      if v[0] == '+' {
        EscapeUnescape(v[2..]);
        assert s[1..] == Unescape(v[2..]).value;
        assert v == v[..2] + v[2..];
      } else {
        EscapeUnescape(v[1..]);
        assert s[1..] == Unescape(v[1..]).value;
        assert v == [v[0]] + v[1..];
      }
    }
  }

  function ModelIssue(cl: Claims): string {
    Ones(cl.expiresAt) + "." + Escape(cl.subject)
  }

  function ModelParse(v: string, now: nat): Parsed {
    var n := LeadingOnes(v);
    if IsBlank(v) then ArgumentRejected
    else if n < |v| && v[n] == '.' && Unescape(v[n + 1..]).Some? then
      if now > ExpiryInstant(n) then Expired else Valid(Some(Unescape(v[n + 1..]).value))
    else
      Invalid
  }

  const ModelCodec := Codec(ModelIssue, ModelParse)

  lemma LeadingOnesOfIssued(cl: Claims)
    ensures LeadingOnes(ModelIssue(cl)) == cl.expiresAt
  {
    var v := ModelIssue(cl);
    assert v[cl.expiresAt] == '.';
  }

  lemma ModelIssueParses(cl: Claims, now: nat)
    ensures ModelParse(ModelIssue(cl), now)
            == if now > ExpiryInstant(cl.expiresAt) then Expired else Valid(Some(cl.subject))
  {
    var v := ModelIssue(cl);
    LeadingOnesOfIssued(cl);
    assert !IsWhitespace(v[cl.expiresAt]);
    assert v[cl.expiresAt + 1..] == Escape(cl.subject);
    UnescapeEscape(cl.subject);
  }

  lemma ModelIssueCompact(cl: Claims)
    ensures |ModelIssue(cl)| > 0 && ' ' !in ModelIssue(cl)
  {
  }

  lemma ModelParseOnlyIssued(v: string, now: nat)
    requires ModelParse(v, now).Valid?
    ensures exists cl: Claims :: ModelIssue(cl) == v
  {
    var n := LeadingOnes(v);
    var subject := Unescape(v[n + 1..]).value;
    EscapeUnescape(v[n + 1..]);
    var cl := Claims(subject, 0, "", 0, n);
    assert ModelIssue(cl) == v;
  }

  lemma ModelCodecSound()
    ensures Sound(ModelCodec)
  {
    forall cl: Claims, now: nat {
      ModelIssueParses(cl, now);
    }
    forall cl: Claims {
      ModelIssueCompact(cl);
    }
    forall v: string, now: nat | ModelCodec.parse(v, now).Valid? {
      ModelParseOnlyIssued(v, now);
    }
    assert RejectsBlank(ModelCodec);
  }
}
