/** Credential keys: which account a key names, and how a key is recognised. */
module Base64Url {
  import opened Wrappers
  import opened Utf8

  /** The URL- and filename-safe alphabet (section 5 of RFC 4648). */
  function Symbol(v: nat): char
    requires v < 64
  {
    if v < 26 then ('A' as int + v) as char
    else if v < 52 then ('a' as int + v - 26) as char
    else if v < 62 then ('0' as int + v - 52) as char
    else if v == 62 then '-' else '_'
  }

  predicate IsSymbol(c: char) {
    'A' <= c <= 'Z' || 'a' <= c <= 'z' || '0' <= c <= '9' || c == '-' || c == '_'
  }

  function SymbolValue(c: char): (v: nat)
    requires IsSymbol(c)
    ensures v < 64
  {
    if 'A' <= c <= 'Z' then c as int - 'A' as int
    else if 'a' <= c <= 'z' then c as int - 'a' as int + 26
    else if '0' <= c <= '9' then c as int - '0' as int + 52
    else if c == '-' then 62 else 63
  }

  /** Encoding without padding (section 3.2 of RFC 4648). */
  function Encode64(b: seq<byte>): string {
    if b == [] then ""
    else if |b| == 1 then [Symbol(b[0] / 4), Symbol(b[0] % 4 * 16)]
    else if |b| == 2 then [Symbol(b[0] / 4), Symbol(b[0] % 4 * 16 + b[1] / 16), Symbol(b[1] % 16 * 4)]
    else [Symbol(b[0] / 4), Symbol(b[0] % 4 * 16 + b[1] / 16), Symbol(b[1] % 16 * 4 + b[2] / 64), Symbol(b[2] % 64)]
         + Encode64(b[3..])
  }

  /** Decoding; unused bits of the last symbol must be zero, and padding is not accepted. */
  function Decode64(s: string): Option<seq<byte>> {
    if s == "" then Some([])
    else if |s| == 1 || !(IsSymbol(s[0]) && IsSymbol(s[1])) then None
    else
      var v0, v1 := SymbolValue(s[0]), SymbolValue(s[1]);
      var first: byte := v0 * 4 + v1 / 16;
      if |s| == 2 then if v1 % 16 == 0 then Some([first]) else None
      else if !IsSymbol(s[2]) then None
      else
        var v2 := SymbolValue(s[2]);
        var second: byte := v1 % 16 * 16 + v2 / 4;
        if |s| == 3 then if v2 % 4 == 0 then Some([first, second]) else None
        else if !IsSymbol(s[3]) then None
        else
          var third: byte := v2 % 4 * 64 + SymbolValue(s[3]);
          match Decode64(s[4..])
          case Some(rest) => Some([first, second, third] + rest)
          case None => None
  }

  lemma SymbolRoundTrip(v: nat)
    requires v < 64
    ensures IsSymbol(Symbol(v)) && SymbolValue(Symbol(v)) == v
  {
  }

  /** Three bytes regrouped as four symbol values, and back. */
  lemma Regroup(x: byte, y: byte, z: byte)
    ensures var v0, v1, v2, v3 := x / 4, x % 4 * 16 + y / 16, y % 16 * 4 + z / 64, z % 64;
      && v0 < 64 && v1 < 64 && v2 < 64 && v3 < 64
      && v0 * 4 + v1 / 16 == x
      && v1 % 16 * 16 + v2 / 4 == y
      && v2 % 4 * 64 + v3 == z
  {
  }

  function Group(x: byte, y: byte, z: byte): string {
    [Symbol(x / 4), Symbol(x % 4 * 16 + y / 16), Symbol(y % 16 * 4 + z / 64), Symbol(z % 64)]
  }

  lemma GroupSymbols(x: byte, y: byte, z: byte)
    ensures var g, v0, v1, v2, v3 := Group(x, y, z), x / 4, x % 4 * 16 + y / 16, y % 16 * 4 + z / 64, z % 64;
      && IsSymbol(g[0]) && IsSymbol(g[1]) && IsSymbol(g[2]) && IsSymbol(g[3])
      && SymbolValue(g[0]) == v0 && SymbolValue(g[1]) == v1 && SymbolValue(g[2]) == v2 && SymbolValue(g[3]) == v3
  {
    hide Symbol, SymbolValue, IsSymbol;
    SymbolRoundTrip(x / 4);
    SymbolRoundTrip(x % 4 * 16 + y / 16);
    SymbolRoundTrip(y % 16 * 4 + z / 64);
    SymbolRoundTrip(z % 64);
  }

  lemma DecodeGroup(x: byte, y: byte, z: byte, s: string, rest: seq<byte>)
    requires Decode64(s) == Some(rest)
    ensures Decode64(Group(x, y, z) + s) == Some([x, y, z] + rest)
  {
    GroupSymbols(x, y, z);
    Regroup(x, y, z);
    hide Symbol, SymbolValue, IsSymbol;
    assert (Group(x, y, z) + s)[4..] == s;
  }

  /** Decoding undoes encoding. */
  lemma {:induction false} Decode64Encode64(b: seq<byte>)
    ensures Decode64(Encode64(b)) == Some(b)
  {
    if |b| < 3 {
      ShortTail(b);
    } else {
      Decode64Encode64(b[3..]);
      DecodeGroup(b[0], b[1], b[2], Encode64(b[3..]), b[3..]);
      hide Decode64, Symbol;
      assert b == [b[0], b[1], b[2]] + b[3..];
      assert Encode64(b) == Group(b[0], b[1], b[2]) + Encode64(b[3..]);
    }
  }

  lemma {:induction false} EncodedSymbols(b: seq<byte>)
    ensures forall c <- Encode64(b) :: IsSymbol(c)
  {
    if |b| < 3 {
      ShortTail(b);
    } else {
      EncodedSymbols(b[3..]);
      GroupSymbols(b[0], b[1], b[2]);
      hide Symbol, SymbolValue, IsSymbol;
      assert Encode64(b) == Group(b[0], b[1], b[2]) + Encode64(b[3..]);
    }
  }

  lemma ShortTail(b: seq<byte>)
    requires |b| <= 2
    ensures Decode64(Encode64(b)) == Some(b)
    ensures forall c <- Encode64(b) :: IsSymbol(c)
  {
    if |b| == 1 {
      OneByte(b[0]);
      assert b == [b[0]];
    } else if |b| == 2 {
      TwoBytes(b[0], b[1]);
      assert b == [b[0], b[1]];
    }
  }

  lemma OneByte(x: byte)
    ensures Decode64(Encode64([x])) == Some([x])
    ensures forall c <- Encode64([x]) :: IsSymbol(c)
  {
    GroupSymbols(x, 0, 0);
    Regroup(x, 0, 0);
    hide Symbol, SymbolValue, IsSymbol;
    var s := [Symbol(x / 4), Symbol(x % 4 * 16)];
    assert Encode64([x]) == s && s == Group(x, 0, 0)[..2];
    hide Encode64;
    assert Decode64(s) == Some([x]);
  }

  lemma TwoBytes(x: byte, y: byte)
    ensures Decode64(Encode64([x, y])) == Some([x, y])
    ensures forall c <- Encode64([x, y]) :: IsSymbol(c)
  {
    hide Symbol, SymbolValue, IsSymbol;
    GroupSymbols(x, y, 0);
    Regroup(x, y, 0);
    var s := [Symbol(x / 4), Symbol(x % 4 * 16 + y / 16), Symbol(y % 16 * 4)];
    assert Encode64([x, y]) == s && s == Group(x, y, 0)[..3];
    hide Encode64;
    assert Decode64(s) == Some([x, y]);
  }

  /** Four symbol values regrouped as three bytes, and back. */
  lemma Ungroup(v0: nat, v1: nat, v2: nat, v3: nat)
    requires v0 < 64 && v1 < 64 && v2 < 64 && v3 < 64
    ensures var x, y, z := v0 * 4 + v1 / 16, v1 % 16 * 16 + v2 / 4, v2 % 4 * 64 + v3;
      && x < 256 && y < 256 && z < 256
      && x / 4 == v0 && x % 4 * 16 + y / 16 == v1 && y % 16 * 4 + z / 64 == v2 && z % 64 == v3
  {
  }

  lemma ValueRoundTrip(c: char)
    requires IsSymbol(c)
    ensures Symbol(SymbolValue(c)) == c
  {
  }

  lemma EncodeGroup(x: byte, y: byte, z: byte, rest: seq<byte>)
    ensures Encode64([x, y, z] + rest) == Group(x, y, z) + Encode64(rest)
  {
    hide Symbol;
    assert ([x, y, z] + rest)[3..] == rest;
  }

  /** The three bytes that four symbols stand for. */
  lemma UngroupSymbols(c0: char, c1: char, c2: char, c3: char) returns (x: byte, y: byte, z: byte)
    requires IsSymbol(c0) && IsSymbol(c1) && IsSymbol(c2) && IsSymbol(c3)
    ensures x == SymbolValue(c0) * 4 + SymbolValue(c1) / 16
    ensures y == SymbolValue(c1) % 16 * 16 + SymbolValue(c2) / 4
    ensures z == SymbolValue(c2) % 4 * 64 + SymbolValue(c3)
    ensures Group(x, y, z) == [c0, c1, c2, c3]
  {
    hide Symbol, SymbolValue, IsSymbol;
    ValueRoundTrip(c0);
    ValueRoundTrip(c1);
    ValueRoundTrip(c2);
    ValueRoundTrip(c3);
    var v0, v1, v2, v3 := SymbolValue(c0), SymbolValue(c1), SymbolValue(c2), SymbolValue(c3);
    Ungroup(v0, v1, v2, v3);
    x, y, z := v0 * 4 + v1 / 16, v1 % 16 * 16 + v2 / 4, v2 % 4 * 64 + v3;
  }

  /** Only encoded text is accepted: each byte string has one encoding. */
  lemma {:induction false} DecodesOnlyEncodings(s: string)
    requires Decode64(s).Some?
    ensures Encode64(Decode64(s).value) == s
  {
    hide Symbol, SymbolValue, IsSymbol, Encode64;
    if |s| >= 4 {
      var x, y, z := UngroupSymbols(s[0], s[1], s[2], s[3]);
      DecodesOnlyEncodings(s[4..]);
      EncodeGroup(x, y, z, Decode64(s[4..]).value);
      assert s == [s[0], s[1], s[2], s[3]] + s[4..];
    } else if s != "" {
      DecodesShortEncodings(s);
    } else {
      EncodeNothing();
    }
  }

  lemma EncodeNothing()
    ensures Encode64([]) == ""
  {
  }

  lemma DecodesShortEncodings(s: string)
    requires 1 <= |s| <= 3 && Decode64(s).Some?
    ensures Encode64(Decode64(s).value) == s
  {
    hide Symbol, SymbolValue, IsSymbol, Encode64, Decode64;
    assert |s| != 1 by { OneSymbol(s); }
    if |s| == 2 {
      assert s == [s[0], s[1]];
      TwoSymbols(s[0], s[1]);
    } else {
      assert s == [s[0], s[1], s[2]];
      ThreeSymbols(s[0], s[1], s[2]);
    }
  }

  lemma OneSymbol(s: string)
    ensures |s| == 1 ==> Decode64(s) == None
  {
  }

  lemma TwoSymbols(c0: char, c1: char)
    requires Decode64([c0, c1]).Some?
    ensures Encode64(Decode64([c0, c1]).value) == [c0, c1]
  {
    SymbolRoundTrip(0);
    hide Symbol, SymbolValue, IsSymbol, Encode64;
    var x, y, z := UngroupSymbols(c0, c1, Symbol(0), Symbol(0));
    assert Decode64([c0, c1]).value == [x] && y == 0 && z == 0;
    EncodeShort(x, 0);
  }

  lemma ThreeSymbols(c0: char, c1: char, c2: char)
    requires Decode64([c0, c1, c2]).Some?
    ensures Encode64(Decode64([c0, c1, c2]).value) == [c0, c1, c2]
  {
    SymbolRoundTrip(0);
    hide Symbol, SymbolValue, IsSymbol, Encode64;
    var x, y, z := UngroupSymbols(c0, c1, c2, Symbol(0));
    assert Decode64([c0, c1, c2]).value == [x, y] && z == 0;
    EncodeShort(x, y);
  }

  lemma EncodeShort(x: byte, y: byte)
    ensures Encode64([x]) == Group(x, 0, 0)[..2] && Encode64([x, y]) == Group(x, y, 0)[..3]
  {
    hide Symbol;
  }
}

module CredentialKeys {
  import opened Wrappers
  import opened Base64Url

  datatype Purpose = Login | Privilege

  function Label(purpose: Purpose): string {
    match purpose
    case Login => "login"
    case Privilege => "privilege"
  }

  function Encoded(text: string): string { Encode64(Utf8.Encode(text)) }

  predicate EncodesText(part: string, text: string) { Decode64(part) == Some(Utf8.Encode(text)) }

  predicate IsHex(s: string) {
    s != "" && forall i | 0 <= i < |s| :: '0' <= s[i] <= '9' || 'a' <= s[i] <= 'f' || 'A' <= s[i] <= 'F'
  }

  /** The pieces between colons. */
  function SplitColon(s: string): (parts: seq<string>)
    ensures parts != []
  {
    if s == "" then [""]
    else
      var rest := SplitColon(s[1..]);
      if s[0] == ':' then [""] + rest else [[s[0]] + rest[0]] + rest[1..]
  }

  function KeyV3(token: string, purpose: Purpose, server: string, user: string, generation: string): string {
    "sshw" + ":" + ("v3" + ":" + (Encoded(token) + ":" + (Label(purpose) + ":" + (Encoded(server) + ":"
      + (Encoded(user) + ":" + generation)))))
  }

  /** The key of the format before, which names a server and no account. */
  function KeyV2(token: string, purpose: Purpose, server: string, generation: string): string {
    "sshw" + ":" + ("v2" + ":" + (Encoded(token) + ":" + (Label(purpose) + ":" + (Encoded(server) + ":" + generation))))
  }

  function LegacyKey(token: string, purpose: Purpose, server: string): string {
    match purpose
    case Login => "sshw:" + token + ":" + server
    case Privilege => "sshw:" + token + ":privilege:" + server
  }

  /** The key was made for this account. */
  predicate AccountKeyMatches(token: string, purpose: Purpose, server: string, user: string, key: string) {
    var parts := SplitColon(key);
    && |parts| == 7
    && parts[0] == "sshw"
    && parts[1] == "v3"
    && parts[3] == Label(purpose)
    && IsHex(parts[6])
    && EncodesText(parts[2], token)
    && EncodesText(parts[4], server)
    && EncodesText(parts[5], user)
  }

  /** The key was made for this server before keys named accounts. */
  predicate ServerKeyMatches(token: string, purpose: Purpose, server: string, key: string) {
    || key == LegacyKey(token, purpose, server)
    || var parts := SplitColon(key);
       && |parts| == 6
       && parts[0] == "sshw"
       && parts[1] == "v2"
       && parts[3] == Label(purpose)
       && IsHex(parts[5])
       && EncodesText(parts[2], token)
       && EncodesText(parts[4], server)
  }

  // ---------- A key names exactly one account ----------

  lemma {:induction false} SplitFirst(part: string, rest: string)
    requires ':' !in part
    ensures SplitColon(part + ":" + rest) == [part] + SplitColon(rest)
  {
    var s := part + ":" + rest;
    if part == "" {
      assert s[1..] == rest;
    } else {
      assert s[1..] == part[1..] + ":" + rest;
      assert part == [part[0]] + part[1..];
      SplitFirst(part[1..], rest);
    }
  }

  lemma {:induction false} SplitLast(part: string)
    ensures |SplitColon(part)| == 1 <==> ':' !in part
    ensures ':' !in part ==> SplitColon(part) == [part]
  {
    if part != "" {
      SplitLast(part[1..]);
      assert part == [part[0]] + part[1..];
    }
  }

  lemma EncodedHasNoColon(text: string)
    ensures ':' !in Encoded(text)
  {
    EncodedSymbols(Utf8.Encode(text));
  }

  lemma EncodedMatches(text: string, other: string)
    ensures EncodesText(Encoded(text), other) <==> text == other
  {
    Decode64Encode64(Utf8.Encode(text));
    if EncodesText(Encoded(text), other) { Utf8.EncodeInjective(text, other); }
  }

  lemma LabelsDiffer(p: Purpose, q: Purpose)
    ensures Label(p) == Label(q) <==> p == q
    ensures ':' !in Label(p)
  {
    assert Label(Login)[0] != Label(Privilege)[0];
  }

  lemma KeyV3Parts(token: string, purpose: Purpose, server: string, user: string, generation: string)
    ensures SplitColon(KeyV3(token, purpose, server, user, generation))
         == ["sshw", "v3", Encoded(token), Label(purpose), Encoded(server), Encoded(user)] + SplitColon(generation)
  {
    hide SplitColon, Encoded;
    EncodedHasNoColon(token);
    EncodedHasNoColon(server);
    EncodedHasNoColon(user);
    LabelsDiffer(purpose, purpose);
    var user_ := Encoded(user) + ":" + generation;
    var server_ := Encoded(server) + ":" + user_;
    var purpose_ := Label(purpose) + ":" + server_;
    var token_ := Encoded(token) + ":" + purpose_;
    SplitFirst("sshw", "v3" + ":" + token_);
    SplitFirst("v3", token_);
    SplitFirst(Encoded(token), purpose_);
    SplitFirst(Label(purpose), server_);
    SplitFirst(Encoded(server), user_);
    SplitFirst(Encoded(user), generation);
  }

  /** A key is recognised for the account it was made for and for no other, whatever characters the
      names are made of, provided its generation is hexadecimal; otherwise for none. */
  lemma KeyNamesItsAccount(token: string, purpose: Purpose, server: string, user: string, generation: string,
                           token': string, purpose': Purpose, server': string, user': string)
    ensures AccountKeyMatches(token', purpose', server', user', KeyV3(token, purpose, server, user, generation))
       <==> IsHex(generation) && token == token' && purpose == purpose' && server == server' && user == user'
  {
    hide SplitColon, Encoded, EncodesText, KeyV3, Label;
    KeyV3Parts(token, purpose, server, user, generation);
    SplitLast(generation);
    LabelsDiffer(purpose, purpose');
    EncodedMatches(token, token');
    EncodedMatches(server, server');
    EncodedMatches(user, user');
  }

  lemma KeyV2Parts(token: string, purpose: Purpose, server: string, generation: string)
    ensures SplitColon(KeyV2(token, purpose, server, generation))
         == ["sshw", "v2", Encoded(token), Label(purpose), Encoded(server)] + SplitColon(generation)
  {
    hide SplitColon, Encoded;
    EncodedHasNoColon(token);
    EncodedHasNoColon(server);
    LabelsDiffer(purpose, purpose);
    var server_ := Encoded(server) + ":" + generation;
    var purpose_ := Label(purpose) + ":" + server_;
    var token_ := Encoded(token) + ":" + purpose_;
    SplitFirst("sshw", "v2" + ":" + token_);
    SplitFirst("v2", token_);
    SplitFirst(Encoded(token), purpose_);
    SplitFirst(Label(purpose), server_);
    SplitFirst(Encoded(server), generation);
  }

  /** Keys of both earlier formats are still recognised for their server; and one of the later of these for no other,
      unless it happens to be the earliest key of that one. */
  lemma EarlierKeysNameTheirServer(token: string, purpose: Purpose, server: string, generation: string,
                                   token': string, purpose': Purpose, server': string)
    requires IsHex(generation)
    ensures ServerKeyMatches(token, purpose, server, LegacyKey(token, purpose, server))
    ensures ServerKeyMatches(token', purpose', server', KeyV2(token, purpose, server, generation)) <==>
      || (token == token' && purpose == purpose' && server == server')
      || KeyV2(token, purpose, server, generation) == LegacyKey(token', purpose', server')
  {
    hide SplitColon, Encoded, EncodesText, KeyV2, Label, LegacyKey;
    KeyV2Parts(token, purpose, server, generation);
    HexHasNoColon(generation);
    SplitLast(generation);
    LabelsDiffer(purpose, purpose');
    EncodedMatches(token, token');
    EncodedMatches(server, server');
  }

  lemma HexHasNoColon(generation: string)
    requires IsHex(generation)
    ensures ':' !in generation
  {
  }

  /** Distinct accounts or generations have distinct keys. */
  lemma KeysAreInjective(token: string, purpose: Purpose, server: string, user: string, generation: string,
                         token': string, purpose': Purpose, server': string, user': string, generation': string)
    requires IsHex(generation) && IsHex(generation')
    requires KeyV3(token, purpose, server, user, generation) == KeyV3(token', purpose', server', user', generation')
    ensures token == token' && purpose == purpose' && server == server' && user == user' && generation == generation'
  {
    hide SplitColon, Encoded, Label, KeyV3;
    KeyNamesItsAccount(token', purpose', server', user', generation', token', purpose', server', user');
    KeyNamesItsAccount(token, purpose, server, user, generation, token', purpose', server', user');
    KeyV3Parts(token, purpose, server, user, generation);
    KeyV3Parts(token', purpose', server', user', generation');
    SplitLast(generation);
    SplitLast(generation');
    var parts := SplitColon(KeyV3(token, purpose, server, user, generation));
    assert parts[6] == generation && parts[6] == generation';
  }

  function JoinColon(parts: seq<string>): string
    requires parts != []
  {
    if |parts| == 1 then parts[0] else parts[0] + ":" + JoinColon(parts[1..])
  }

  lemma {:induction false} JoinSplitColon(s: string)
    ensures JoinColon(SplitColon(s)) == s
  {
    if s != "" {
      var rest := SplitColon(s[1..]);
      JoinSplitColon(s[1..]);
      assert s == [s[0]] + s[1..];
      if s[0] == ':' {
        assert ([""] + rest)[1..] == rest;
      } else {
        var parts := [[s[0]] + rest[0]] + rest[1..];
        assert parts[1..] == rest[1..];
        assert |rest| > 1 ==> parts[0] + ":" + JoinColon(rest[1..]) == [s[0]] + (rest[0] + ":" + JoinColon(rest[1..]));
      }
    }
  }

  /** The keys recognised for an account are exactly the keys made for it. */
  lemma RecognisedKeysAreMade(token: string, purpose: Purpose, server: string, user: string, key: string)
    ensures AccountKeyMatches(token, purpose, server, user, key)
       <==> exists generation :: IsHex(generation) && key == KeyV3(token, purpose, server, user, generation)
  {
    if generation :| IsHex(generation) && key == KeyV3(token, purpose, server, user, generation) {
      KeyNamesItsAccount(token, purpose, server, user, generation, token, purpose, server, user);
    }
    if AccountKeyMatches(token, purpose, server, user, key) {
      KeyFromParts(token, purpose, server, user, key);
    }
  }

  lemma KeyFromParts(token: string, purpose: Purpose, server: string, user: string, key: string)
    requires AccountKeyMatches(token, purpose, server, user, key)
    ensures key == KeyV3(token, purpose, server, user, SplitColon(key)[6])
  {
    hide SplitColon, Encode64, Decode64, IsHex;
    var p := SplitColon(key);
    JoinSplitColon(key);
    DecodesOnlyEncodings(p[2]);
    DecodesOnlyEncodings(p[4]);
    DecodesOnlyEncodings(p[5]);
    JoinSeven(p);
  }

  lemma JoinSeven(p: seq<string>)
    requires |p| == 7
    ensures JoinColon(p)
         == p[0] + ":" + (p[1] + ":" + (p[2] + ":" + (p[3] + ":" + (p[4] + ":" + (p[5] + ":" + p[6])))))
  {
    JoinStep(p, 0);
    JoinStep(p, 1);
    JoinStep(p, 2);
    JoinStep(p, 3);
    JoinStep(p, 4);
    JoinStep(p, 5);
    hide *;
  }

  lemma JoinStep(p: seq<string>, i: nat)
    requires i + 1 < |p|
    ensures JoinColon(p[i..]) == p[i] + ":" + JoinColon(p[i + 1..])
    ensures i + 2 == |p| ==> JoinColon(p[i + 1..]) == p[i + 1]
    ensures p[0..] == p
  {
    assert p[i..][1..] == p[i + 1..];
  }
}
