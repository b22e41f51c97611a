/**
 The WebSocket URL: percent-encoding of the query values and the assembly of base, path and query.
 A byte is a `char` below 256; Rust strings are their UTF-8 bytes.
 */
module UrlCodec {
  import opened Prelude
  import opened Scheduler

  type Byte = c: char | c as int < 256 witness 'a'
  type Bytes = seq<Byte>

  // ----- percent-encoding --------------------------------------------------------------------

  /** Section 2.3 of RFC 3986. */
  predicate Unreserved(b: char) {
    'A' <= b <= 'Z' || 'a' <= b <= 'z' || '0' <= b <= '9' || b == '-' || b == '_' || b == '.' || b == '~'
  }

  function HexDigit(n: nat): (c: char)
    requires n < 16
    ensures Unreserved(c) && !('a' <= c <= 'z') && HexValue(c) == Some(n)
  {
    if n < 10 then ('0' as int + n) as char else ('A' as int + n - 10) as char
  }

  function HexValue(c: char): Option<nat> {
    if '0' <= c <= '9' then Some(c as int - '0' as int)
    else if 'A' <= c <= 'F' then Some(c as int - 'A' as int + 10)
    else if 'a' <= c <= 'f' then Some(c as int - 'a' as int + 10)
    else None
  }

  function EncodeByte(b: Byte): string {
    if Unreserved(b) then [b] else ['%', HexDigit(b as int / 16), HexDigit(b as int % 16)]
  }

  function Encode(s: Bytes): string {
    if s == [] then "" else EncodeByte(s[0]) + Encode(s[1..])
  }

  /** The inverse: `%HH` is the byte HH, anything else stands for itself. */
  function Decode(t: string): Option<Bytes> {
    if t == "" then Some([])
    else if t[0] == '%' then
      if |t| < 3 || HexValue(t[1]).None? || HexValue(t[2]).None? then None
      else
        var rest := Decode(t[3..]);
        if rest.None? then None
        else Some([(16 * HexValue(t[1]).value + HexValue(t[2]).value) as char] + rest.value)
    else if t[0] as int < 256 then
      var rest := Decode(t[1..]);
      if rest.None? then None else Some([t[0]] + rest.value)
    else None
  }

  const HEX_DIGITS := "0123456789ABCDEF"

  /** The character codes section 2.3 of RFC 3986 reserves no meaning for: letters, digits and `-._~`. */
  ghost predicate UnreservedCode(n: nat) {
    65 <= n <= 90 || 97 <= n <= 122 || 48 <= n <= 57 || n == 45 || n == 46 || n == 95 || n == 126
  }

  /** What one byte becomes: itself when it is unreserved, else its two upper-case digits. */
  lemma EncodeByteExactly(b: Byte)
    ensures Encode([b]) == if UnreservedCode(b as int) then [b]
                           else "%" + [HEX_DIGITS[b as int / 16], HEX_DIGITS[b as int % 16]]
  {
    assert [b][1..] == [];
  }

  /** The encoding leaves a text alone exactly when all of its bytes are unreserved. */
  lemma {:induction false} EncodeIdentityExactly(s: Bytes)
    ensures Encode(s) == s <==> forall c :: c in s ==> UnreservedCode(c as int)
  {
    if s != [] {
      EncodeIdentityExactly(s[1..]);
      assert s == [s[0]] + s[1..];
      if !Unreserved(s[0]) {
        assert s[0] in s;
        EncodeIsCanonical(s[1..]);
        assert |Encode(s)| == 3 + |Encode(s[1..])| > |s|;
      } else {
        assert Encode(s) == [s[0]] + Encode(s[1..]);
        assert Encode(s) == s ==> Encode(s)[1..] == s[1..];
        assert forall c :: c in s <==> c == s[0] || c in s[1..];
      }
    }
  }

  lemma {:induction false} EncodeSnoc(s: Bytes, b: Byte)
    ensures Encode(s + [b]) == Encode(s) + EncodeByte(b)
  {
    if s == [] {
      assert s + [b] == [b] && [b][1..] == [];
    } else {
      EncodeSnoc(s[1..], b);
      var t := s + [b];
      assert t[0] == s[0] && t[1..] == s[1..] + [b];
      assert EncodeByte(s[0]) + (Encode(s[1..]) + EncodeByte(b)) == EncodeByte(s[0]) + Encode(s[1..]) + EncodeByte(b);
    }
  }

  method UrlEncode(s: Bytes) returns (out: string)
    ensures out == Encode(s)
    ensures Decode(out) == Some(s)
  {
    out := "";
    for i := 0 to |s|
      invariant out == Encode(s[..i])
    {
      EncodeSnoc(s[..i], s[i]);
      assert s[..i + 1] == s[..i] + [s[i]];
      if Unreserved(s[i]) {
        out := out + [s[i]];
      } else {
        out := out + ['%', HexDigit(s[i] as int / 16), HexDigit(s[i] as int % 16)];
      }
    }
    assert s[..|s|] == s;
    DecodeEncode(s);
  }

  lemma {:induction false} DecodeEncode(s: Bytes)
    ensures Decode(Encode(s)) == Some(s)
  {
    if s != [] {
      DecodeEncode(s[1..]);
      var t := Encode(s);
      if Unreserved(s[0]) {
        assert t[1..] == Encode(s[1..]);
      } else {
        assert t[3..] == Encode(s[1..]);
        assert t[1] == HexDigit(s[0] as int / 16) && t[2] == HexDigit(s[0] as int % 16);
      }
      assert s == [s[0]] + s[1..];
    }
  }

  lemma EncodeInjective(a: Bytes, b: Bytes)
    requires Encode(a) == Encode(b)
    ensures a == b
  {
    DecodeEncode(a);
    DecodeEncode(b);
  }

  /** Only unreserved characters and upper-case `%HH` of a byte that needs it. */
  predicate Canonical(t: string) {
    t != "" ==>
      if t[0] == '%' then
        && |t| >= 3
        && HexValue(t[1]).Some? && HexValue(t[2]).Some?
        && !('a' <= t[1] <= 'z') && !('a' <= t[2] <= 'z')
        && !Unreserved((16 * HexValue(t[1]).value + HexValue(t[2]).value) as char)
        && Canonical(t[3..])
      else Unreserved(t[0]) && Canonical(t[1..])
  }

  lemma {:induction false} EncodeIsCanonical(s: Bytes)
    ensures Canonical(Encode(s)) && |s| <= |Encode(s)| <= 3 * |s|
    ensures forall c :: c in Encode(s) ==> Unreserved(c) || c == '%'
  {
    if s != [] {
      EncodeIsCanonical(s[1..]);
      var t := Encode(s);
      if Unreserved(s[0]) {
        assert t[1..] == Encode(s[1..]);
      } else {
        assert t[3..] == Encode(s[1..]);
        assert t[1] == HexDigit(s[0] as int / 16) && t[2] == HexDigit(s[0] as int % 16);
      }
    }
  }

  /** Conversely every canonical text is the encoding of what it decodes to. */
  lemma {:induction false} CanonicalIsEncoded(t: string)
    requires Canonical(t)
    ensures Decode(t).Some? && Encode(Decode(t).value) == t
  {
    if t != "" {
      if t[0] == '%' {
        CanonicalIsEncoded(t[3..]);
        var rest := Decode(t[3..]).value;
        var hi, lo := HexValue(t[1]).value, HexValue(t[2]).value;
        var b: Byte := (16 * hi + lo) as char;
        assert ([b] + rest)[1..] == rest;
        assert b as int / 16 == hi && b as int % 16 == lo;
        assert HexDigit(hi) == t[1] && HexDigit(lo) == t[2];
        assert t == [t[0], t[1], t[2]] + t[3..];
      } else {
        CanonicalIsEncoded(t[1..]);
        var rest := Decode(t[1..]).value;
        assert ([t[0]] + rest)[1..] == rest;
        assert t == [t[0]] + t[1..];
      }
    }
  }

  // ----- assembling the URL -------------------------------------------------------------------

  /** `replacen(from, to, 1)`: the first occurrence anywhere. */
  function ReplaceFirst(s: string, pat: string, repl: string): string {
    if pat <= s then repl + s[|pat|..]
    else if s == "" then ""
    else [s[0]] + ReplaceFirst(s[1..], pat, repl)
  }

  function WsBase(source: string): string {
    ReplaceFirst(ReplaceFirst(source, "http://", "ws://"), "https://", "wss://")
  }

  predicate Occurs(s: string, pat: string) {
    pat <= s || (s != "" && Occurs(s[1..], pat))
  }

  /** A replacement of another length leaves exactly the texts without the pattern alone. */
  lemma {:induction false} ReplaceFirstIdentity(s: string, pat: string, repl: string)
    requires |repl| < |pat|
    ensures ReplaceFirst(s, pat, repl) == s <==> !Occurs(s, pat)
  {
    if !(pat <= s) && s != "" {
      ReplaceFirstIdentity(s[1..], pat, repl);
      assert s == [s[0]] + s[1..];
      assert ([s[0]] + ReplaceFirst(s[1..], pat, repl))[1..] == ReplaceFirst(s[1..], pat, repl);
    }
  }

  lemma {:induction false} ReplaceFirstSkips(pre: string, s: string, pat: string, repl: string)
    requires pat != "" && pat[0] !in pre
    ensures ReplaceFirst(pre + s, pat, repl) == pre + ReplaceFirst(s, pat, repl)
  {
    if pre == "" {
      assert pre + s == s;
    } else {
      ReplaceFirstSkips(pre[1..], s, pat, repl);
      var t := pre + s;
      assert t[0] == pre[0] && pre[0] in pre;
      assert !(pat <= t);
      assert t[1..] == pre[1..] + s;
      assert [pre[0]] + (pre[1..] + ReplaceFirst(s, pat, repl)) == pre + ReplaceFirst(s, pat, repl);
    }
  }

  lemma HttpUpgraded(rest: string)
    ensures WsBase("http://" + rest) == "ws://" + rest <==> !Occurs(rest, "https://")
  {
    var s := "http://" + rest;
    assert s[7..] == rest;
    var once := ReplaceFirst(s, "http://", "ws://");
    assert once == "ws://" + rest;
    ReplaceFirstSkips("ws://", rest, "https://", "wss://");
    ReplaceFirstIdentity(rest, "https://", "wss://");
    var tail := ReplaceFirst(rest, "https://", "wss://");
    assert WsBase(s) == "ws://" + tail;
    assert ("ws://" + tail)[5..] == tail && ("ws://" + rest)[5..] == rest;
  }

  lemma HttpsUpgraded(rest: string)
    ensures WsBase("https://" + rest) == "wss://" + rest <==> !Occurs(rest, "http://")
  {
    var s := "https://" + rest;
    var tail := ReplaceFirst(rest, "http://", "ws://");
    assert s[1..] == "ttps://" + rest;
    assert !("http://" <= s) by {
      assert s[4] == 's';
    }
    ReplaceFirstSkips("ttps://", rest, "http://", "ws://");
    assert ReplaceFirst(s, "http://", "ws://") == "https://" + tail;
    assert ("https://" + tail)[8..] == tail;
    assert WsBase(s) == "wss://" + tail;
    ReplaceFirstIdentity(rest, "http://", "ws://");
    assert ("wss://" + tail)[6..] == tail && ("wss://" + rest)[6..] == rest;
  }

  /**
   The scheme becomes its WebSocket counterpart and nothing else changes, exactly when the other scheme's
   prefix does not occur again later in the text.
   */
  lemma SchemeUpgraded(rest: string)
    ensures WsBase("http://" + rest) == "ws://" + rest <==> !Occurs(rest, "https://")
    ensures WsBase("https://" + rest) == "wss://" + rest <==> !Occurs(rest, "http://")
  {
    HttpUpgraded(rest);
    HttpsUpgraded(rest);
  }

  /** An address without either prefix is left as it is. */
  lemma OtherSchemesKept(source: string)
    requires !Occurs(source, "http://") && !Occurs(source, "https://")
    ensures WsBase(source) == source
  {
    ReplaceFirstIdentity(source, "http://", "ws://");
    ReplaceFirstIdentity(source, "https://", "wss://");
  }

  function BaseSource(shard: ShardRow): string {
    if shard.broker.Some? && shard.broker.value.publicUrl.Some? then shard.broker.value.publicUrl.value else shard.url
  }

  function WsPath(shard: ShardRow): string {
    var path :=
      if shard.broker.Some? && shard.broker.value.wsPath.Some? && shard.broker.value.wsPath.value != ""
      then shard.broker.value.wsPath.value else "/gateway";
    if path[0] == '/' then path else "/" + path
  }

  datatype Param = Param(key: string, value: Bytes)

  function QueryParams(token: Bytes, game: Bytes, player: Bytes): seq<Param> {
    [Param("placementToken", token), Param("gameId", game), Param("playerId", player)]
  }

  function ParamText(p: Param): string {
    p.key + "=" + Encode(p.value)
  }

  /** The texts joined with `&`. */
  function Query(ps: seq<Param>): string {
    if ps == [] then ""
    else if |ps| == 1 then ParamText(ps[0])
    else ParamText(ps[0]) + "&" + Query(ps[1..])
  }

  function BuildWsUrl(shard: ShardRow, game: Bytes, token: Bytes, player: Bytes): string {
    WsBase(BaseSource(shard)) + WsPath(shard) + "?" + Query(QueryParams(token, game, player))
  }

  // ----- reading it back ----------------------------------------------------------------------

  /** Splits at the first `sep`; all of it goes left when there is none. */
  function SplitFirst(s: string, sep: char): (string, Option<string>) {
    if s == "" then ("", None)
    else if s[0] == sep then ("", Some(s[1..]))
    else
      var (left, right) := SplitFirst(s[1..], sep);
      ([s[0]] + left, right)
  }

  /** The text after the last `sep`, and the text before it. */
  function SplitLast(s: string, sep: char): Option<(string, string)> {
    if s == "" then None
    else if Last(s) == sep then Some((Drop1(s), ""))
    else
      var r := SplitLast(Drop1(s), sep);
      if r.None? then None else Some((r.value.0, r.value.1 + [Last(s)]))
  }

  function ParseParam(t: string): Option<Param> {
    var (key, value) := SplitFirst(t, '=');
    if value.None? || Decode(value.value).None? then None
    else Some(Param(key, Decode(value.value).value))
  }

  lemma SplitFirstShrinks(s: string, sep: char)
    ensures SplitFirst(s, sep).1.Some? ==> |SplitFirst(s, sep).1.value| < |s|
  {
  }

  function ParseQuery(t: string): Option<seq<Param>>
    decreases |t|
  {
    SplitFirstShrinks(t, '&');
    var (first, rest) := SplitFirst(t, '&');
    var p := ParseParam(first);
    if p.None? then None
    else if rest.None? then Some([p.value])
    else
      var ps := ParseQuery(rest.value);
      if ps.None? then None else Some([p.value] + ps.value)
  }

  /** The whole reader: split at the last `?`, then parse the query. */
  function ParseWsUrl(url: string): Option<(string, seq<Param>)> {
    var parts := SplitLast(url, '?');
    if parts.None? then None
    else
      var ps := ParseQuery(parts.value.1);
      if ps.None? then None else Some((parts.value.0, ps.value))
  }

  lemma {:induction false} SplitFirstFinds(left: string, sep: char, right: string)
    requires sep !in left
    ensures SplitFirst(left + [sep] + right, sep) == (left, Some(right))
    ensures SplitFirst(left, sep) == (left, None)
  {
    var s := left + [sep] + right;
    if left == "" {
      assert s[1..] == right;
    } else {
      SplitFirstFinds(left[1..], sep, right);
      assert s[1..] == left[1..] + [sep] + right;
      assert left == [left[0]] + left[1..];
    }
  }

  lemma {:induction false} SplitLastFinds(left: string, sep: char, right: string)
    requires sep !in right
    ensures SplitLast(left + [sep] + right, sep) == Some((left, right))
  {
    var s := left + [sep] + right;
    if right == "" {
      assert Drop1(s) == left;
    } else {
      SplitLastFinds(left, sep, Drop1(right));
      assert Drop1(s) == left + [sep] + Drop1(right);
      assert right == Drop1(right) + [Last(right)];
    }
  }

  ghost predicate PlainKey(key: string) {
    forall c :: c in key ==> Unreserved(c)
  }

  lemma ParamParses(p: Param)
    requires PlainKey(p.key)
    ensures ParseParam(ParamText(p)) == Some(p)
  {
    DecodeEncode(p.value);
    SplitFirstFinds(p.key, '=', Encode(p.value));
    assert ParamText(p) == p.key + ['='] + Encode(p.value);
  }

  lemma ParamIsPlain(p: Param, sep: char)
    requires PlainKey(p.key) && sep in {'&', '?'}
    ensures sep !in ParamText(p)
  {
    EncodeIsCanonical(p.value);
    assert sep !in p.key && sep !in Encode(p.value) && sep !in "=";
  }

  lemma {:induction false} QueryRoundTrip(ps: seq<Param>)
    requires ps != [] && forall p :: p in ps ==> PlainKey(p.key)
    ensures ParseQuery(Query(ps)) == Some(ps) && '?' !in Query(ps)
  {
    ParamParses(ps[0]);
    ParamIsPlain(ps[0], '&');
    ParamIsPlain(ps[0], '?');
    if |ps| == 1 {
      SplitFirstFinds(ParamText(ps[0]), '&', "");
      assert ps == [ps[0]];
    } else {
      QueryRoundTrip(ps[1..]);
      SplitFirstFinds(ParamText(ps[0]), '&', Query(ps[1..]));
      assert ps == [ps[0]] + ps[1..];
    }
  }

  /**
   Query-string round trip: for every shard row and arbitrary bytes, splitting the built URL at its last
   `?`, then at `&` and `=`, and percent-decoding gives back the location and exactly the three parameters.
   */
  lemma WsUrlRoundTrip(shard: ShardRow, game: Bytes, token: Bytes, player: Bytes)
    ensures ParseWsUrl(BuildWsUrl(shard, game, token, player))
            == Some((WsBase(BaseSource(shard)) + WsPath(shard), QueryParams(token, game, player)))
  {
    var ps := QueryParams(token, game, player);
    QueryRoundTrip(ps);
    SplitLastFinds(WsBase(BaseSource(shard)) + WsPath(shard), '?', Query(ps));
  }

  /** The value of the first parameter with the key. */
  function ValueOf(ps: seq<Param>, key: string): Option<Bytes> {
    if ps == [] then None
    else if ps[0].key == key then Some(ps[0].value) else ValueOf(ps[1..], key)
  }

  /** Reading the URL back gives the token, the game and the player each under its own key, and no other. */
  lemma WsUrlValues(shard: ShardRow, game: Bytes, token: Bytes, player: Bytes)
    ensures var r := ParseWsUrl(BuildWsUrl(shard, game, token, player));
            && r.Some? && |r.value.1| == 3
            && ValueOf(r.value.1, "placementToken") == Some(token)
            && ValueOf(r.value.1, "gameId") == Some(game)
            && ValueOf(r.value.1, "playerId") == Some(player)
  {
    WsUrlRoundTrip(shard, game, token, player);
    var ps := QueryParams(token, game, player);
    assert "placementToken" != "gameId" && "placementToken" != "playerId" && "gameId" != "playerId" by {
      assert "placementToken"[0] == 'p' && "gameId"[0] == 'g' && |"placementToken"| != |"playerId"|;
    }
    assert ps[1..][1..] == [ps[2]];
    assert ValueOf(ps[1..][1..], "playerId") == Some(player);
    assert ValueOf(ps[1..], "playerId") == Some(player) && ValueOf(ps[1..], "gameId") == Some(game);
  }

  /** The address a shard row gives: its broker's public URL, or else its own. */
  ghost predicate IsSource(source: string, shard: ShardRow) {
    && (shard.broker.Some? && shard.broker.value.publicUrl.Some? ==> source == shard.broker.value.publicUrl.value)
    && (shard.broker.Some? && shard.broker.value.publicUrl.None? ==> source == shard.url)
    && (shard.broker.None? ==> source == shard.url)
  }

  /** The path a shard row gives: its broker's, with a slash put in front if need be, or else `/gateway`. */
  ghost predicate IsPath(path: string, shard: ShardRow) {
    && (shard.broker.Some? && shard.broker.value.wsPath.Some? && |shard.broker.value.wsPath.value| > 0 ==>
          var given := shard.broker.value.wsPath.value;
          path == if given[0] == '/' then given else "/" + given)
    && (shard.broker.None? || shard.broker.value.wsPath.None? || |shard.broker.value.wsPath.value| == 0 ==>
          path == "/gateway")
  }

  /** Where the URL leads: the shard's address with its scheme upgraded, and a path that starts with a slash. */
  lemma WsUrlLocation(shard: ShardRow, game: Bytes, token: Bytes, player: Bytes, source: string, path: string)
    requires IsSource(source, shard) && IsPath(path, shard)
    ensures var r := ParseWsUrl(BuildWsUrl(shard, game, token, player));
            r.Some? && r.value.0 == WsBase(source) + path && |path| > 0 && path[0] == '/'
    ensures forall rest :: source == "http://" + rest && !Occurs(rest, "https://") ==> WsBase(source) == "ws://" + rest
    ensures forall rest :: source == "https://" + rest && !Occurs(rest, "http://") ==> WsBase(source) == "wss://" + rest
  {
    WsUrlRoundTrip(shard, game, token, player);
    forall rest
      ensures source == "http://" + rest && !Occurs(rest, "https://") ==> WsBase(source) == "ws://" + rest
      ensures source == "https://" + rest && !Occurs(rest, "http://") ==> WsBase(source) == "wss://" + rest
    {
      SchemeUpgraded(rest);
    }
  }

  /** Different token, game or player never share a URL on one shard. */
  lemma WsUrlInjective(shard: ShardRow, g1: Bytes, t1: Bytes, p1: Bytes, g2: Bytes, t2: Bytes, p2: Bytes)
    requires BuildWsUrl(shard, g1, t1, p1) == BuildWsUrl(shard, g2, t2, p2)
    ensures g1 == g2 && t1 == t2 && p1 == p2
  {
    WsUrlRoundTrip(shard, g1, t1, p1);
    WsUrlRoundTrip(shard, g2, t2, p2);
    assert QueryParams(t1, g1, p1)[0] == QueryParams(t2, g2, p2)[0]
           && QueryParams(t1, g1, p1)[1] == QueryParams(t2, g2, p2)[1]
           && QueryParams(t1, g1, p1)[2] == QueryParams(t2, g2, p2)[2];
  }
}
