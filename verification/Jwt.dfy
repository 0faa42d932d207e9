/** Issuing and verifying JSON Web Tokens, with the MAC and the JSON library as functions. */
module Jwt {
  import opened CString
  import opened Base64Url
  import opened Compat

  const HEADER_ENCODED := "eyJhbGciOiJIUzI1NiIsInR5cCI6IkpXVCJ9"

  datatype Claims = Claims(iss: string, sub: string, oid: int, aud: string, iat: int, exp: int, jti: string)

  /** HMAC-SHA256 of data under key, and the JSON text of a claims object and back. */
  datatype Library = Library(mac: (string, string) -> string, gen: Claims -> string, parse: string -> Option<Claims>) {
    ghost predicate Laws() {
      && (forall key, data {:trigger mac(key, data)} :: IsBytes(mac(key, data)) && |mac(key, data)| == 32)
      && (forall c :: IsBytes(gen(c)) && NulFree(gen(c)) && gen(c) != [] && parse(gen(c)) == Some(c))
    }
  }

  // ---------------------------------------------------------------- tokens as strings

  function SigningInput(header: string, payload: string): string {
    header + "." + payload
  }

  /** The encoded signature over header and payload. */
  function Signature(lib: Library, key: string, header: string, payload: string): string
    requires lib.Laws()
  {
    Encode(lib.mac(key, SigningInput(header, payload)))
  }

  function TokenOf(lib: Library, key: string, c: Claims): string
    requires lib.Laws()
  {
    var payload := Encode(lib.gen(c));
    HEADER_ENCODED + "." + payload + "." + Signature(lib, key, HEADER_ENCODED, payload)
  }

  /** The pieces between dots, empty ones dropped, as kore_split_string returns them. */
  function Pieces(s: string): (ps: seq<string>)
    ensures forall p :: p in ps ==> p != [] && '.' !in p
  {
    PiecesFrom([], s)
  }

  function PiecesFrom(piece: string, s: string): (ps: seq<string>)
    requires '.' !in piece
    ensures forall p :: p in ps ==> p != [] && '.' !in p
    decreases |s|
  {
    if s == [] then (if piece == [] then [] else [piece])
    else if s[0] == '.' then (if piece == [] then [] else [piece]) + PiecesFrom([], s[1..])
    else PiecesFrom(piece + [s[0]], s[1..])
  }

  datatype Verdict =
    | Rejected
    | Accepted(c: Claims)
    | Undefined     // a payload of one character, or one that does not parse: the C code goes astray

  function Verify(lib: Library, key: string, now: int, later: int, token: string): Verdict
    requires lib.Laws()
  {
    if !(|token| >= 2 && token[0] == 'e' && token[1] == 'y') then Rejected
    else
      var ps := Pieces(token);
      if |ps| < 3 then Rejected
      else if ps[0] != HEADER_ENCODED then Rejected
      else if ps[2] != Signature(lib, key, ps[0], ps[1]) then Rejected
      else Judge(lib, now, later, ps[1])
  }

  /** What parse_payload and the time checks, each with its own reading of the clock, make of a signed payload. */
  function Judge(lib: Library, now: int, later: int, payload: string): Verdict {
    if |payload| == 1 then Undefined
    else
      match lib.parse(CStr(Decode(payload), 0))
      case None => Undefined
      case Some(c) => if now < c.iat then Rejected else if later > c.exp then Rejected else Accepted(c)
  }

  // ---------------------------------------------------------------- properties

  lemma AlphabetIsPlain(t: string)
    requires IsAlphabet(t)
    ensures '.' !in t && NulFree(t)
  {
  }

  lemma {:induction false} PiecesOfPlain(piece: string, p: string, rest: string)
    requires '.' !in piece && '.' !in p && piece + p != []
    ensures PiecesFrom(piece, p + ['.'] + rest) == [piece + p] + PiecesFrom([], rest)
    ensures PiecesFrom(piece, p) == [piece + p]
    decreases |p|
  {
    var s := p + ['.'] + rest;
    if p == [] {
      assert s[0] == '.' && s[1..] == rest;
      assert piece + p == piece;
    } else {
      assert s[0] == p[0] && s[1..] == p[1..] + ['.'] + rest;
      PiecesOfPlain(piece + [p[0]], p[1..], rest);
      assert piece + [p[0]] + p[1..] == piece + p;
    }
  }

  lemma ThreePieces(a: string, b: string, c: string)
    requires '.' !in a && '.' !in b && '.' !in c && a != [] && b != [] && c != []
    ensures Pieces(a + "." + b + "." + c) == [a, b, c]
  {
    hide PiecesFrom;
    PiecesOfPlain([], a, b + ['.'] + c);
    PiecesOfPlain([], b, c);
    PiecesOfPlain([], c, []);
    assert a + "." + b + "." + c == a + ['.'] + (b + ['.'] + c);
    assert [] + a == a && [] + b == b && [] + c == c;
  }

  lemma HeaderIsPlain()
    ensures IsAlphabet(HEADER_ENCODED) && |HEADER_ENCODED| == 36
    ensures HEADER_ENCODED[0] == 'e' && HEADER_ENCODED[1] == 'y'
  {
  }

  /** The pieces of a token are its parts: encoder output has no dot. */
  lemma TokenPieces(lib: Library, key: string, c: Claims)
    requires lib.Laws()
    ensures var payload := Encode(lib.gen(c));
            && payload != [] && |payload| % 4 != 1
            && Pieces(TokenOf(lib, key, c)) == [HEADER_ENCODED, payload, Signature(lib, key, HEADER_ENCODED, payload)]
  {
    hide Encode, InAlphabet, Pieces;
    var payload := Encode(lib.gen(c));
    var sig := Signature(lib, key, HEADER_ENCODED, payload);
    HeaderIsPlain();
    AlphabetIsPlain(HEADER_ENCODED);
    AlphabetIsPlain(payload);
    AlphabetIsPlain(sig);
    ThreePieces(HEADER_ENCODED, payload, sig);
  }

  /** A C string that fills its buffer up to the terminator is all of it. */
  lemma WholeString(t: string)
    requires NulFree(t)
    ensures CStr(t, 0) == t
  {
    CStrIs(t, 0, t);
  }

  /**
   * A token issued for claims is accepted under the same key exactly inside its time window, and
   * every claim comes back.
   */
  lemma IssuedTokenVerifies(lib: Library, key: string, c: Claims, now: int, later: int)
    requires lib.Laws()
    ensures Verify(lib, key, now, later, TokenOf(lib, key, c)) == if c.iat <= now && later <= c.exp then Accepted(c) else Rejected
  {
    hide Encode, Decode, InAlphabet, Pieces;
    TokenPieces(lib, key, c);
    HeaderIsPlain();
    DecodeEncode(lib.gen(c));
    WholeString(lib.gen(c));
  }

  /** Nothing but dots. */
  ghost predicate Dots(s: string) {
    forall c :: c in s ==> c == '.'
  }

  /** Dots, a piece without any, and what follows it: nothing, or a dot and more. */
  ghost predicate FirstOf(s: string, dots: string, p: string, rest: string) {
    s == dots + p + rest && Dots(dots) && p != [] && '.' !in p && (rest == [] || rest[0] == '.')
  }

  lemma {:induction false} DotsSkipped(dots: string, s: string)
    requires Dots(dots)
    ensures PiecesFrom([], dots + s) == PiecesFrom([], s)
  {
    if dots == [] {
      assert dots + s == s;
    } else {
      assert (dots + s)[0] == dots[0] && (dots + s)[1..] == dots[1..] + s;
      assert dots[0] in dots && forall c :: c in dots[1..] ==> c in dots;
      DotsSkipped(dots[1..], s);
    }
  }

  lemma FirstPiece(s: string, dots: string, p: string, rest: string)
    requires FirstOf(s, dots, p, rest)
    ensures Pieces(s) == [p] + Pieces(rest)
  {
    hide PiecesFrom;
    assert dots + p + rest == dots + (p + rest);
    DotsSkipped(dots, p + rest);
    if rest == [] {
      PiecesOfPlain([], p, []);
      assert p + rest == p && [] + p == p;
      NoPieces();
    } else {
      PiecesOfPlain([], p, rest[1..]);
      assert p + rest == p + ['.'] + rest[1..] && [] + p == p && ['.'] + rest[1..] == rest;
      DotsSkipped(['.'], rest[1..]);
    }
  }

  lemma NoPieces()
    ensures Pieces([]) == []
  {
  }

  /** Every string with a piece begins in this way. */
  lemma {:induction false} SomePiece(s: string) returns (dots: string, p: string, rest: string)
    requires Pieces(s) != []
    ensures FirstOf(s, dots, p, rest)
    decreases |s|
  {
    hide PiecesFrom;
    if s == [] {
      NoPieces();
      assert false;
    } else if s[0] == '.' {
      assert ['.'] + s[1..] == s;
      DotsSkipped(['.'], s[1..]);
      dots, p, rest := SomePiece(s[1..]);
      assert s == (['.'] + dots) + p + rest;
      dots := ['.'] + dots;
    } else {
      dots, p, rest := [], [s[0]], s[1..];
      while rest != [] && rest[0] != '.'
        invariant s == dots + p + rest && dots == [] && p != [] && '.' !in p
        decreases |rest|
      {
        assert p + rest == p + [rest[0]] + rest[1..];
        p, rest := p + [rest[0]], rest[1..];
      }
    }
  }

  /** Header, payload and signature as the first three pieces of a token, whatever follows. */
  ghost predicate Reads(token: string, h: string, p: string, g: string) {
    exists dots1, rest1, dots2, rest2, dots3, rest3 ::
      FirstOf(token, dots1, h, rest1) && FirstOf(rest1, dots2, p, rest2) && FirstOf(rest2, dots3, g, rest3)
  }

  lemma ReadsPieces(token: string, h: string, p: string, g: string)
    requires Reads(token, h, p, g)
    ensures |Pieces(token)| >= 3 && Pieces(token)[0] == h && Pieces(token)[1] == p && Pieces(token)[2] == g
  {
    hide FirstOf, Pieces;
    var dots1, rest1, dots2, rest2, dots3, rest3 :|
      FirstOf(token, dots1, h, rest1) && FirstOf(rest1, dots2, p, rest2) && FirstOf(rest2, dots3, g, rest3);
    FirstPiece(token, dots1, h, rest1);
    FirstPiece(rest1, dots2, p, rest2);
    FirstPiece(rest2, dots3, g, rest3);
  }

  lemma PiecesRead(token: string)
    requires |Pieces(token)| >= 3
    ensures Reads(token, Pieces(token)[0], Pieces(token)[1], Pieces(token)[2])
  {
    hide FirstOf, Pieces;
    var dots1, h, rest1 := SomePiece(token);
    FirstPiece(token, dots1, h, rest1);
    var dots2, p, rest2 := SomePiece(rest1);
    FirstPiece(rest1, dots2, p, rest2);
    var dots3, g, rest3 := SomePiece(rest2);
    FirstPiece(rest2, dots3, g, rest3);
  }

  /**
   * Of all strings only those that open as a token does and read as the header, a payload and the signature
   * over both get to the payload; what follows the signature behind a dot, and further dots, do not matter.
   */
  lemma OnlySignedTokensPass(lib: Library, key: string, now: int, later: int, token: string)
    requires lib.Laws()
    ensures forall p, g :: Reads(token, HEADER_ENCODED, p, g) && token != [] && token[0] == 'e' ==>
              Verify(lib, key, now, later, token) ==
              if g == Signature(lib, key, HEADER_ENCODED, p) then Judge(lib, now, later, p) else Rejected
    ensures (token == [] || token[0] != 'e' || !exists p, g :: Reads(token, HEADER_ENCODED, p, g)) ==>
              Verify(lib, key, now, later, token) == Rejected
  {
    hide Encode, Decode, InAlphabet, Pieces, Judge, Reads, Signature;
    forall p, g | Reads(token, HEADER_ENCODED, p, g) && token != [] && token[0] == 'e'
      ensures Verify(lib, key, now, later, token) ==
              if g == Signature(lib, key, HEADER_ENCODED, p) then Judge(lib, now, later, p) else Rejected
    {
      ReadsPieces(token, HEADER_ENCODED, p, g);
      OpensWithHeader(token, p, g);
    }
    if |Pieces(token)| >= 3 {
      PiecesRead(token);
    }
  }

  lemma OpensWithHeader(token: string, p: string, g: string)
    requires Reads(token, HEADER_ENCODED, p, g) && token != [] && token[0] == 'e'
    ensures |token| >= 2 && token[1] == 'y'
  {
    hide FirstOf;
    HeaderIsPlain();
    var dots1, rest1 :| FirstOf(token, dots1, HEADER_ENCODED, rest1);
    NoDots(token, dots1, HEADER_ENCODED, rest1);
    assert (HEADER_ENCODED + rest1)[1] == HEADER_ENCODED[1];
  }

  lemma NoDots(s: string, dots: string, p: string, rest: string)
    requires s != [] && FirstOf(s, dots, p, rest) && s[0] != '.'
    ensures s == p + rest
  {
    assert dots + p + rest == dots + (p + rest);
    if dots != [] {
      DotFirst(dots, p + rest);
    }
  }

  lemma DotFirst(dots: string, y: string)
    requires Dots(dots) && dots != []
    ensures (dots + y)[0] == '.'
  {
    assert dots[0] in dots;
  }

  /** An issued token with another part behind it is as good as the token itself. */
  lemma FurtherPartsIgnored(lib: Library, key: string, c: Claims, now: int, later: int, more: string)
    requires lib.Laws()
    ensures Verify(lib, key, now, later, TokenOf(lib, key, c) + "." + more) == Verify(lib, key, now, later, TokenOf(lib, key, c))
  {
    hide Encode, Decode, InAlphabet, Pieces, Judge, Reads, Signature;
    var (h, p) := (HEADER_ENCODED, Encode(lib.gen(c)));
    var g := Signature(lib, key, h, p);
    PartsRead(lib, key, c, []);
    PartsRead(lib, key, c, "." + more);
    var t := TokenOf(lib, key, c);
    assert t + [] == t && t + ("." + more) == t + "." + more;
    HeaderIsPlain();
    ReadsPieces(t, h, p, g);
    ReadsPieces(t + "." + more, h, p, g);
    assert t[..2] == (t + "." + more)[..2];
    assert t[0] == t[..2][0] && t[1] == t[..2][1];
  }

  lemma PartsRead(lib: Library, key: string, c: Claims, rest: string)
    requires lib.Laws() && (rest == [] || rest[0] == '.')
    ensures var p := Encode(lib.gen(c));
            Reads(TokenOf(lib, key, c) + rest, HEADER_ENCODED, p, Signature(lib, key, HEADER_ENCODED, p))
    ensures |TokenOf(lib, key, c)| >= 2
  {
    hide Encode, InAlphabet;
    var (h, p) := (HEADER_ENCODED, Encode(lib.gen(c)));
    var g := Signature(lib, key, h, p);
    HeaderIsPlain();
    AlphabetIsPlain(h);
    AlphabetIsPlain(p);
    AlphabetIsPlain(g);
    var t := TokenOf(lib, key, c) + rest;
    var (r2, r1) := ("." + g + rest, "." + p + ("." + g + rest));
    assert t == [] + h + r1 && r1 == "." + p + r2 && r2 == "." + g + rest;
    assert FirstOf(t, [], h, r1) && FirstOf(r1, ".", p, r2) && FirstOf(r2, ".", g, rest);
  }

  /** A key that signs the token's input differently rejects it: encoding keeps MACs apart. */
  lemma OtherKeyRejects(lib: Library, key: string, key': string, c: Claims, now: int, later: int)
    requires lib.Laws()
    requires var input := SigningInput(HEADER_ENCODED, Encode(lib.gen(c))); lib.mac(key, input) != lib.mac(key', input)
    ensures Verify(lib, key', now, later, TokenOf(lib, key, c)) == Rejected
  {
    hide Encode, Decode, InAlphabet, Pieces, Judge;
    TokenPieces(lib, key, c);
    var input := SigningInput(HEADER_ENCODED, Encode(lib.gen(c)));
    DecodeEncode(lib.mac(key, input));
    DecodeEncode(lib.mac(key', input));
  }

  // ---------------------------------------------------------------- what is signed

  /** A token is its own text up to the second dot, a dot, and the encoded MAC over that text. */
  lemma TokenIsSignedText(lib: Library, key: string, c: Claims)
    requires lib.Laws()
    ensures var signed := HEADER_ENCODED + "." + Encode(lib.gen(c));
            TokenOf(lib, key, c) == signed + "." + Encode(lib.mac(key, signed))
  {
    hide Encode;
  }

  /** And of all texts with that header only such a one gets to its payload. */
  lemma SignedTextPasses(lib: Library, key: string, now: int, later: int, p: string, g: string)
    requires lib.Laws() && '.' !in p && '.' !in g && p != [] && g != []
    ensures var signed := HEADER_ENCODED + "." + p;
            Verify(lib, key, now, later, signed + "." + g) ==
            if g == Encode(lib.mac(key, signed)) then Judge(lib, now, later, p) else Rejected
  {
    hide Encode, Decode, InAlphabet, Pieces, Judge, Reads;
    var token := HEADER_ENCODED + "." + p + "." + g;
    HeaderIsPlain();
    AlphabetIsPlain(HEADER_ENCODED);
    ThreePieces(HEADER_ENCODED, p, g);
    PiecesRead(token);
    assert token[0] == HEADER_ENCODED[0];
    OnlySignedTokensPass(lib, key, now, later, token);
  }

  lemma DecodeFour(q: string, t: string)
    requires |q| == 4
    ensures Decode(q + t) == Triple(q[0], q[1], q[2], q[3]) + Decode(t)
  {
    hide Triple;
    assert (q + t)[4..] == t && (q + t)[0] == q[0] && (q + t)[1] == q[1] && (q + t)[2] == q[2] && (q + t)[3] == q[3];
    if t == [] {
      NoneDecoded();
    }
  }

  lemma NoneDecoded()
    ensures Decode([]) == []
  {
  }

  lemma HeaderGroup0()
    ensures Triple('e', 'y', 'J', 'h') == "{\"a"
  {
  }

  lemma HeaderGroup1()
    ensures Triple('b', 'G', 'c', 'i') == "lg\""
  {
  }

  lemma HeaderGroup2()
    ensures Triple('O', 'i', 'J', 'I') == ":\"H"
  {
  }

  lemma HeaderGroup3()
    ensures Triple('U', 'z', 'I', '1') == "S25"
  {
  }

  lemma HeaderGroup4()
    ensures Triple('N', 'i', 'I', 's') == "6\","
  {
  }

  lemma HeaderGroup5()
    ensures Triple('I', 'n', 'R', '5') == "\"ty"
  {
  }

  lemma HeaderGroup6()
    ensures Triple('c', 'C', 'I', '6') == "p\":"
  {
  }

  lemma HeaderGroup7()
    ensures Triple('I', 'k', 'p', 'X') == "\"JW"
  {
  }

  lemma HeaderGroup8()
    ensures Triple('V', 'C', 'J', '9') == "T\"}"
  {
  }

  lemma HeaderFrom32()
    ensures Decode("VCJ9") == "T\"}"
  {
    hide Decode, Triple;
    NoneDecoded();
    DecodeFour("VCJ9", "");
    assert "VCJ9" + "" == "VCJ9";
    assert Triple('V', 'C', 'J', '9') == "T\"}" by { HeaderGroup8(); }
    assert "T\"}" + "" == "T\"}";
  }

  lemma HeaderFrom28()
    ensures Decode("IkpXVCJ9") == "\"JWT\"}"
  {
    hide Decode, Triple;
    HeaderFrom32();
    DecodeFour("IkpX", "VCJ9");
    assert "IkpX" + "VCJ9" == "IkpXVCJ9";
    assert Triple('I', 'k', 'p', 'X') == "\"JW" by { HeaderGroup7(); }
    assert "\"JW" + "T\"}" == "\"JWT\"}";
  }

  lemma HeaderFrom24()
    ensures Decode("cCI6IkpXVCJ9") == "p\":\"JWT\"}"
  {
    hide Decode, Triple;
    HeaderFrom28();
    DecodeFour("cCI6", "IkpXVCJ9");
    assert "cCI6" + "IkpXVCJ9" == "cCI6IkpXVCJ9";
    assert Triple('c', 'C', 'I', '6') == "p\":" by { HeaderGroup6(); }
    assert "p\":" + "\"JWT\"}" == "p\":\"JWT\"}";
  }

  lemma HeaderFrom20()
    ensures Decode("InR5cCI6IkpXVCJ9") == "\"typ\":\"JWT\"}"
  {
    hide Decode, Triple;
    HeaderFrom24();
    DecodeFour("InR5", "cCI6IkpXVCJ9");
    assert "InR5" + "cCI6IkpXVCJ9" == "InR5cCI6IkpXVCJ9";
    assert Triple('I', 'n', 'R', '5') == "\"ty" by { HeaderGroup5(); }
    assert "\"ty" + "p\":\"JWT\"}" == "\"typ\":\"JWT\"}";
  }

  lemma HeaderFrom16()
    ensures Decode("NiIsInR5cCI6IkpXVCJ9") == "6\",\"typ\":\"JWT\"}"
  {
    hide Decode, Triple;
    HeaderFrom20();
    DecodeFour("NiIs", "InR5cCI6IkpXVCJ9");
    assert "NiIs" + "InR5cCI6IkpXVCJ9" == "NiIsInR5cCI6IkpXVCJ9";
    assert Triple('N', 'i', 'I', 's') == "6\"," by { HeaderGroup4(); }
    assert "6\"," + "\"typ\":\"JWT\"}" == "6\",\"typ\":\"JWT\"}";
  }

  lemma HeaderFrom12()
    ensures Decode("UzI1NiIsInR5cCI6IkpXVCJ9") == "S256\",\"typ\":\"JWT\"}"
  {
    hide Decode, Triple;
    HeaderFrom16();
    DecodeFour("UzI1", "NiIsInR5cCI6IkpXVCJ9");
    assert "UzI1" + "NiIsInR5cCI6IkpXVCJ9" == "UzI1NiIsInR5cCI6IkpXVCJ9";
    assert Triple('U', 'z', 'I', '1') == "S25" by { HeaderGroup3(); }
    assert "S25" + "6\",\"typ\":\"JWT\"}" == "S256\",\"typ\":\"JWT\"}";
  }

  lemma HeaderFrom8()
    ensures Decode("OiJIUzI1NiIsInR5cCI6IkpXVCJ9") == ":\"HS256\",\"typ\":\"JWT\"}"
  {
    hide Decode, Triple;
    HeaderFrom12();
    DecodeFour("OiJI", "UzI1NiIsInR5cCI6IkpXVCJ9");
    assert "OiJI" + "UzI1NiIsInR5cCI6IkpXVCJ9" == "OiJIUzI1NiIsInR5cCI6IkpXVCJ9";
    assert Triple('O', 'i', 'J', 'I') == ":\"H" by { HeaderGroup2(); }
    assert ":\"H" + "S256\",\"typ\":\"JWT\"}" == ":\"HS256\",\"typ\":\"JWT\"}";
  }

  lemma HeaderFrom4()
    ensures Decode("bGciOiJIUzI1NiIsInR5cCI6IkpXVCJ9") == "lg\":\"HS256\",\"typ\":\"JWT\"}"
  {
    hide Decode, Triple;
    HeaderFrom8();
    DecodeFour("bGci", "OiJIUzI1NiIsInR5cCI6IkpXVCJ9");
    assert "bGci" + "OiJIUzI1NiIsInR5cCI6IkpXVCJ9" == "bGciOiJIUzI1NiIsInR5cCI6IkpXVCJ9";
    assert Triple('b', 'G', 'c', 'i') == "lg\"" by { HeaderGroup1(); }
    assert "lg\"" + ":\"HS256\",\"typ\":\"JWT\"}" == "lg\":\"HS256\",\"typ\":\"JWT\"}";
  }

  /** The header of every token, decoded. */
  lemma HeaderText()
    ensures Decode(HEADER_ENCODED) == "{\"alg\":\"HS256\",\"typ\":\"JWT\"}"
  {
    hide Decode, Triple;
    HeaderFrom4();
    DecodeFour("eyJh", "bGciOiJIUzI1NiIsInR5cCI6IkpXVCJ9");
    assert "eyJh" + "bGciOiJIUzI1NiIsInR5cCI6IkpXVCJ9" == "eyJhbGciOiJIUzI1NiIsInR5cCI6IkpXVCJ9";
    assert Triple('e', 'y', 'J', 'h') == "{\"a" by { HeaderGroup0(); }
    assert "{\"a" + "lg\":\"HS256\",\"typ\":\"JWT\"}" == "{\"alg\":\"HS256\",\"typ\":\"JWT\"}";
  }

  // ---------------------------------------------------------------- the buffers

  /** The sizes allocated for encoded and decoded text leave room for the terminator. */
  lemma BufferSizes(n: nat)
    ensures EncodedLength(n) + 1 <= 4 * n / 3 + 2
    ensures DecodedLength(n) + 1 <= 3 * n / 4 + 1
  {
  }

  /** The fields a caller sees. */
  class Token {
    var iss: string
    var sub: string
    var aud: string
    var oid: int
    var iat: int
    var exp: int

    constructor (sub: string, aud: string, oid: int)
      ensures this.sub == sub && this.aud == aud && this.oid == oid
    {
      this.iss, this.sub, this.aud, this.oid, this.iat, this.exp := "", sub, aud, oid, 0, 0;
    }
  }

  /** The C string in a freshly encoded buffer. */
  method EncodeText(data: string) returns (text: string)
    requires IsBytes(data)
    ensures text == Encode(data)
  {
    hide Encode, InAlphabet;
    BufferSizes(|data|);
    var buf := new char[4 * |data| / 3 + 2](_ => NUL);
    var n := EncodeInto(data, buf);
    AlphabetIsPlain(Encode(data));
    CStrIs(buf[..], 0, Encode(data));
    text := CStr(buf[..], 0);
  }

  /** sign_payload: the MAC goes through a buffer of 36 bytes. */
  method SignPayload(lib: Library, key: string, data: string) returns (signature: string)
    requires lib.Laws() && NulFree(data)
    ensures signature == Encode(lib.mac(key, data))
  {
    var mac := lib.mac(key, data);
    assert |mac| <= 36;
    signature := EncodeText(mac);
  }

  /** jwt_token_new with generate_payload: the token carries the fields, the issue time and the expiry. */
  method TokenNew(lib: Library, key: string, jwt: Token, issuer: string, jti: string, now: int, lifetime: int)
    returns (token: string)
    requires lib.Laws()
    modifies jwt
    ensures jwt.iat == now && jwt.exp == now + lifetime
    ensures jwt.iss == old(jwt.iss) && jwt.sub == old(jwt.sub) && jwt.aud == old(jwt.aud) && jwt.oid == old(jwt.oid)
    ensures token == TokenOf(lib, key, Claims(issuer, jwt.sub, jwt.oid, jwt.aud, now, now + lifetime, jti))
  {
    hide Encode, InAlphabet;
    var c := Claims(issuer, jwt.sub, jwt.oid, jwt.aud, now, now + lifetime, jti);
    var payload := EncodeText(lib.gen(c));
    jwt.iat, jwt.exp := now, now + lifetime;
    HeaderIsPlain();
    AlphabetIsPlain(HEADER_ENCODED);
    AlphabetIsPlain(payload);
    var data := new char[36 + 1 + |payload| + 1](_ => NUL);
    PutString(data, HEADER_ENCODED + "." + payload);
    var signature := SignPayload(lib, key, CStr(data[..], 0));
    AlphabetIsPlain(signature);
    var buf := new char[36 + 1 + |payload| + 1 + |signature| + 1](_ => NUL);
    PutString(buf, HEADER_ENCODED + "." + payload + "." + signature);
    token := CStr(buf[..], 0);
  }

  /** parse_payload: None when the decoded length stays unset or the text does not parse. */
  method ParsePayload(lib: Library, payload: string, jwt: Token) returns (ok: bool)
    modifies jwt
    ensures ok <==> |payload| != 1 && lib.parse(CStr(Decode(payload), 0)).Some?
    ensures ok ==> var c := lib.parse(CStr(Decode(payload), 0)).value;
                   jwt.iss == c.iss && jwt.sub == c.sub && jwt.aud == c.aud && jwt.oid == c.oid
                   && jwt.iat == c.iat && jwt.exp == c.exp
  {
    hide Decode;
    BufferSizes(|payload|);
    var buf := new char[3 * |payload| / 4 + 1](_ => NUL);
    var n := DecodeInto(payload, buf);
    match n
    case Unset => return false;
    case Set(len) =>
      buf[len] := NUL;
      DecodedText(buf[..], Decode(payload));
      match lib.parse(CStr(buf[..], 0))
      case None => return false;
      case Some(c) =>
        jwt.iss, jwt.sub, jwt.aud, jwt.oid, jwt.iat, jwt.exp := c.iss, c.sub, c.aud, c.oid, c.iat, c.exp;
        return true;
  }

  lemma DecodedText(buf: string, d: string)
    requires |d| < |buf| && buf[..|d|] == d && buf[|d|] == NUL
    ensures CStr(buf, 0) == CStr(d, 0)
  {
    var r := CStr(d, 0);
    assert buf[0..|r|] == d[0..|r|];
    CStrIs(buf, 0, r);
  }

  lemma {:induction false} PiecesNulFree(piece: string, s: string)
    requires '.' !in piece && NulFree(piece) && NulFree(s)
    ensures forall p :: p in PiecesFrom(piece, s) ==> NulFree(p)
    decreases |s|
  {
    if s != [] {
      PiecesNulFree(if s[0] == '.' then [] else piece + [s[0]], s[1..]);
    }
  }

  /** check_signature: the presented signature against the one over header and payload. */
  method CheckSignature(lib: Library, key: string, header: string, payload: string, hash: string) returns (ok: bool)
    requires lib.Laws() && NulFree(header) && NulFree(payload)
    ensures ok <==> hash == Encode(lib.mac(key, header + "." + payload))
  {
    hide Encode;
    var data := new char[|header| + 1 + |payload| + 1](_ => NUL);
    PutString(data, SigningInput(header, payload));
    var signature := SignPayload(lib, key, CStr(data[..], 0));
    ok := hash == signature;
  }

  /** What jwt_verify does once the signature is right. */
  method JudgePayload(lib: Library, payload: string, jwt: Token, now: int, later: int) returns (ok: bool, defined: bool)
    modifies jwt
    ensures ok <==> Judge(lib, now, later, payload).Accepted?
    ensures defined <==> !Judge(lib, now, later, payload).Undefined?
    ensures ok ==> var c := Judge(lib, now, later, payload).c;
                   jwt.iss == c.iss && jwt.sub == c.sub && jwt.aud == c.aud && jwt.oid == c.oid
                   && jwt.iat == c.iat && jwt.exp == c.exp
  {
    hide Decode, CStr;
    var parsed := ParsePayload(lib, payload, jwt);
    if !parsed {
      return false, false;
    }
    if now < jwt.iat {
      return false, true;
    }
    if later > jwt.exp {
      return false, true;
    }
    return true, true;
  }

  lemma PiecesPlain(s: string)
    requires NulFree(s)
    ensures forall i :: 0 <= i < |Pieces(s)| ==> NulFree(Pieces(s)[i])
  {
    hide PiecesFrom, NulFree;
    PiecesNulFree([], s);
  }

  /** jwt_verify; where the C code goes astray the method stops without an answer. */
  method JwtVerify(lib: Library, key: string, token: string, jwt: Token, now: int, later: int) returns (ok: bool, defined: bool)
    requires lib.Laws() && NulFree(token)
    modifies jwt
    ensures ok <==> Verify(lib, key, now, later, token).Accepted?
    ensures defined <==> !Verify(lib, key, now, later, token).Undefined?
    ensures ok ==> var c := Verify(lib, key, now, later, token).c;
                   jwt.iss == c.iss && jwt.sub == c.sub && jwt.aud == c.aud && jwt.oid == c.oid
                   && jwt.iat == c.iat && jwt.exp == c.exp
  {
    hide Judge, Pieces, NulFree, Encode;
    if !(|token| >= 2 && token[0] == 'e' && token[1] == 'y') {
      return false, true;
    }
    var parts := Pieces(token);
    if |parts| < 3 || parts[0] != HEADER_ENCODED {
      return false, true;
    }
    PiecesPlain(token);
    var signed := CheckSignature(lib, key, parts[0], parts[1], parts[2]);
    if !signed {
      return false, true;
    }
    ok, defined := JudgePayload(lib, parts[1], jwt, now, later);
  }
}
