/** The JSON Web Tokens of the service, abstracted to what the code relies on.
    A token carries its signing algorithm, its claims and, standing for the
    HMAC signature, the key it was signed with (an idealised MAC: a token
    verifies under a key exactly when it was signed with that key). Tokens
    travel as text; this module gives them an injective text form made of
    decimal numerals separated by '.', like the three dot-separated parts of a
    compact JWT, and proves that decoding inverts encoding. */
module TokenCodec {
  import opened Common
  import opened Numbers
  import opened Uuids

  /** Signing algorithms a token header can name. */
  datatype Alg = HS256 | HS384 | HS512 | RS256 | ES256 | NoneAlg

  /** jwt.SigningMethodHMAC covers exactly the three HS algorithms. */
  predicate IsHmac(a: Alg) {
    a == HS256 || a == HS384 || a == HS512
  }

  /** JWTClaims: the user id and email, plus the registered claims the service
      sets (exp and iat in Unix seconds, and the token id jti). */
  datatype Claims = Claims(userId: Uuid, email: string, expiresAt: int, issuedAt: int, id: string)

  datatype Token = Token(alg: Alg, claims: Claims, signedWith: string)

  function AlgCode(a: Alg): nat {
    match a
    case HS256 => 0
    case HS384 => 1
    case HS512 => 2
    case RS256 => 3
    case ES256 => 4
    case NoneAlg => 5
  }

  function AlgOfCode(n: nat): (a: Option<Alg>)
    ensures a.Some? ==> AlgCode(a.value) == n
  {
    if n == 0 then Some(HS256)
    else if n == 1 then Some(HS384)
    else if n == 2 then Some(HS512)
    else if n == 3 then Some(RS256)
    else if n == 4 then Some(ES256)
    else if n == 5 then Some(NoneAlg)
    else None
  }

  // ---------------------------------------------------------------------------
  // Word layer: a token as a sequence of natural numbers

  predicate IsCharCode(n: nat) {
    n < 0xD800 || 0xE000 <= n < 0x11_0000
  }

  function CharWords(s: string): (ws: seq<nat>)
    ensures |ws| == |s|
  {
    seq(|s|, i requires 0 <= i < |s| => s[i] as nat)
  }

  /** A string as its length followed by its character codes. */
  function StringWords(s: string): seq<nat> {
    [|s|] + CharWords(s)
  }

  /** An integer as a sign word and its magnitude. */
  function IntWords(x: int): seq<nat> {
    if x < 0 then [1, -x] else [0, x]
  }

  function TokenWords(t: Token): seq<nat> {
    [AlgCode(t.alg), t.claims.userId]
      + (StringWords(t.claims.email)
      + (IntWords(t.claims.expiresAt)
      + (IntWords(t.claims.issuedAt)
      + (StringWords(t.claims.id)
      + StringWords(t.signedWith)))))
  }

  /** Reads a string written by StringWords off the front of `ws`. */
  function ReadString(ws: seq<nat>): Option<(string, seq<nat>)> {
    if |ws| == 0 || |ws| - 1 < ws[0] then None
    else
      var n := ws[0];
      if forall i :: 1 <= i <= n ==> IsCharCode(ws[i]) then
        Some((seq(n, i requires 0 <= i < n && IsCharCode(ws[i + 1]) => ws[i + 1] as char), ws[n + 1..]))
      else None
  }

  /** Reads an integer written by IntWords off the front of `ws`. */
  function ReadInt(ws: seq<nat>): Option<(int, seq<nat>)> {
    if |ws| < 2 || ws[0] > 1 then None
    else Some((if ws[0] == 1 then -(ws[1] as int) else ws[1], ws[2..]))
  }

  function TokenOfWords(ws: seq<nat>): Option<Token> {
    if |ws| < 2 || ws[1] >= Pow16(32) then None
    else
      match AlgOfCode(ws[0])
      case None => None
      case Some(alg) =>
        match ReadString(ws[2..])
        case None => None
        case Some((email, r1)) =>
          match ReadTail(r1)
          case None => None
          case Some((exp, iat, jti, key)) => Some(Token(alg, Claims(ws[1], email, exp, iat, jti), key))
  }

  /** Reads the expiry, the issue time, the token id and the key, which
      must end the words. */
  function ReadTail(r1: seq<nat>): Option<(int, int, string, string)> {
    match ReadInt(r1)
    case None => None
    case Some((exp, r2)) =>
      match ReadInt(r2)
      case None => None
      case Some((iat, r3)) =>
        match ReadString(r3)
        case None => None
        case Some((jti, r4)) =>
          match ReadString(r4)
          case None => None
          case Some((key, r5)) => if r5 == [] then Some((exp, iat, jti, key)) else None
  }

  lemma ReadStringWords(s: string, rest: seq<nat>)
    ensures ReadString(StringWords(s) + rest) == Some((s, rest))
  {
    var ws := StringWords(s) + rest;
    var n := |s|;
    assert ws[0] == n;
    assert forall i :: 1 <= i <= n ==> ws[i] == s[i - 1] as nat;
    assert ws[n + 1..] == rest;
    var r := seq(n, i requires 0 <= i < n && IsCharCode(ws[i + 1]) => ws[i + 1] as char);
    assert r == s;
  }

  lemma ReadIntWords(x: int, rest: seq<nat>)
    ensures ReadInt(IntWords(x) + rest) == Some((x, rest))
  {
    assert (IntWords(x) + rest)[2..] == rest;
  }

  /** Dropping the two header words of a word sequence. */
  lemma DropTwo(a: nat, b: nat, y: seq<nat>)
    ensures ([a, b] + y)[2..] == y
  {
  }

  lemma TokenOfTokenWords(t: Token)
    ensures TokenOfWords(TokenWords(t)) == Some(t)
  {
    var c := t.claims;
    var r1 := IntWords(c.expiresAt) + (IntWords(c.issuedAt) + (StringWords(c.id) + StringWords(t.signedWith)));
    var ws := TokenWords(t);
    assert ws == [AlgCode(t.alg), c.userId] + (StringWords(c.email) + r1);
    DropTwo(AlgCode(t.alg), c.userId, StringWords(c.email) + r1);
    ReadStringWords(c.email, r1);
    ReadTailWords(c.expiresAt, c.issuedAt, c.id, t.signedWith);
    assert ws[0] == AlgCode(t.alg);
    AlgOfAlgCode(t.alg);
  }

  /** An algorithm's code reads back as that algorithm. */
  lemma AlgOfAlgCode(a: Alg)
    ensures AlgOfCode(AlgCode(a)) == Some(a)
  {
  }

  /** The tail of a token's words reads back. */
  lemma ReadTailWords(exp: int, iat: int, jti: string, key: string)
    ensures ReadTail(IntWords(exp) + (IntWords(iat) + (StringWords(jti) + StringWords(key)))) == Some((exp, iat, jti, key))
  {
    var r5: seq<nat> := [];
    var r4 := StringWords(key);
    var r3 := StringWords(jti) + r4;
    var r2 := IntWords(iat) + r3;
    assert r4 == r4 + r5;
    ReadIntWords(exp, r2);
    ReadIntWords(iat, r3);
    ReadStringWords(jti, r4);
    ReadStringWords(key, r5);
  }


  // ---------------------------------------------------------------------------
  // Text layer: words as decimal numerals joined by '.'

  function WordsText(ws: seq<nat>): string {
    Join(seq(|ws|, i requires 0 <= i < |ws| => NatDigits(ws[i])), '.')
  }

  function TextWords(s: string): Option<seq<nat>> {
    var parts := Split(s, '.');
    if forall i :: 0 <= i < |parts| ==> IsNumeral(parts[i]) then
      Some(seq(|parts|, i requires 0 <= i < |parts| && IsNumeral(parts[i]) => DigitsValue(parts[i])))
    else None
  }

  lemma {:induction false} TextWordsOfWordsText(ws: seq<nat>)
    requires |ws| >= 1
    ensures TextWords(WordsText(ws)) == Some(ws)
  {
    var parts := seq(|ws|, i requires 0 <= i < |ws| => NatDigits(ws[i]));
    forall i | 0 <= i < |parts| ensures '.' !in parts[i] {
      NumeralAvoids(parts[i], '.');
    }
    SplitJoin(parts, '.');
    assert Split(WordsText(ws), '.') == parts;
    var vs := seq(|parts|, i requires 0 <= i < |parts| && IsNumeral(parts[i]) => DigitsValue(parts[i]));
    assert vs == ws;
  }

  /** The text of a token. */
  function Encode(t: Token): string {
    WordsText(TokenWords(t))
  }

  /** Parses a token text; None stands for every malformed text. */
  function Decode(s: string): Option<Token> {
    match TextWords(s)
    case None => None
    case Some(ws) => TokenOfWords(ws)
  }

  /** Decoding inverts encoding. */
  lemma DecodeEncode(t: Token)
    ensures Decode(Encode(t)) == Some(t)
  {
    TextWordsOfWordsText(TokenWords(t));
    TokenOfTokenWords(t);
  }

  /** A token text is not empty and has no space in it, so it fits the single
      second field of an "Authorization: Bearer <token>" header. */
  lemma EncodeShape(t: Token)
    ensures Encode(t) != ""
    ensures ' ' !in Encode(t)
  {
    var ws := TokenWords(t);
    var parts := seq(|ws|, i requires 0 <= i < |ws| => NatDigits(ws[i]));
    forall i | 0 <= i < |parts| ensures ' ' !in parts[i] {
      NumeralAvoids(parts[i], ' ');
    }
    JoinAvoids(parts, '.', ' ');
    assert |parts[0]| > 0;
    JoinHead(parts, '.');
  }

  lemma JoinHead(parts: seq<string>, sep: char)
    requires |parts| >= 1
    ensures |Join(parts, sep)| >= |parts[0]|
  {
  }
}
