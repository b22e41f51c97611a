/** Reading the trace id out of a `traceparent` header (section 3.2 of W3C Trace Context). */
module Traceparent {
  import opened Prelude
  import UrlCodec

  /** What `HeaderValue::to_str` accepts. */
  predicate VisibleAscii(s: string) {
    forall c :: c in s ==> ' ' <= c < 127 as char || c == '\t'
  }

  predicate IsHex(c: char) {
    '0' <= c <= '9' || 'a' <= c <= 'f' || 'A' <= c <= 'F'
  }

  predicate AllHex(s: string) {
    forall c :: c in s ==> IsHex(c)
  }

  const ZERO_TRACE := "00000000000000000000000000000000"

  function LowerChar(c: char): char {
    if 'A' <= c <= 'Z' then (c as int + 32) as char else c
  }

  function Lower(s: string): string {
    seq(|s|, i requires 0 <= i < |s| => LowerChar(s[i]))
  }

  predicate Accepted(version: string, trace: string, span: string, flags: string) {
    && |version| == 2 && |trace| == 32 && |span| == 16 && |flags| == 2
    && trace != ZERO_TRACE
    && AllHex(trace) && AllHex(span) && AllHex(flags)
  }

  function TraceId(header: Option<string>): Option<string> {
    if header.None? || !VisibleAscii(header.value) then None
    else
      var (version, r1) := UrlCodec.SplitFirst(header.value, '-');
      if r1.None? then None
      else
        var (trace, r2) := UrlCodec.SplitFirst(r1.value, '-');
        if r2.None? then None
        else
          var (span, r3) := UrlCodec.SplitFirst(r2.value, '-');
          if r3.None? then None
          else
            var (flags, r4) := UrlCodec.SplitFirst(r3.value, '-');
            if r4.Some? || !Accepted(version, trace, span, flags) then None else Some(Lower(trace))
  }

  /** One `parts.next()` of the splitting iterator; `rest` is None once it is exhausted. */
  method NextPart(rest: Option<string>) returns (part: Option<string>, rest': Option<string>)
    ensures rest.None? ==> part.None? && rest'.None?
    ensures rest.Some? ==>
              part == Some(UrlCodec.SplitFirst(rest.value, '-').0) && rest' == UrlCodec.SplitFirst(rest.value, '-').1
  {
    if rest.None? {
      return None, None;
    }
    var split := UrlCodec.SplitFirst(rest.value, '-');
    part, rest' := Some(split.0), split.1;
  }

  method TraceIdFromHeaders(header: Option<string>) returns (id: Option<string>)
    ensures id == TraceId(header)
  {
    if header.None? || !VisibleAscii(header.value) {
      return None;
    }
    var version, trace, span, flags, extra;
    var rest := header;
    version, rest := NextPart(rest);
    trace, rest := NextPart(rest);
    if trace.None? {
      return None;
    }
    span, rest := NextPart(rest);
    if span.None? {
      return None;
    }
    flags, rest := NextPart(rest);
    if flags.None? {
      return None;
    }
    extra, rest := NextPart(rest);
    if extra.Some? || !Accepted(version.value, trace.value, span.value, flags.value) {
      return None;
    }
    id := Some(Lower(trace.value));
  }

  // ----- the accepted shape -------------------------------------------------------------------

  function Print(version: string, trace: string, span: string, flags: string): string {
    version + "-" + trace + "-" + span + "-" + flags
  }

  /** Codes of the hexadecimal digits of either case. */
  ghost predicate HexCode(n: nat) {
    48 <= n <= 57 || 65 <= n <= 70 || 97 <= n <= 102
  }

  ghost predicate Digits(s: string, n: nat) {
    |s| == n && forall c :: c in s ==> HexCode(c as int)
  }

  /** Four hyphen-free fields, of the required lengths and digits. The version need not be hexadecimal. */
  ghost predicate HasShape(raw: string, version: string, trace: string, span: string, flags: string) {
    && raw == Print(version, trace, span, flags)
    && |version| == 2 && '-' !in version
    && Digits(trace, 32) && (exists c :: c in trace && c != '0')
    && Digits(span, 16) && Digits(flags, 2)
  }

  lemma ZeroTraceListed(trace: string)
    requires |trace| == 32
    ensures trace == ZERO_TRACE <==> forall c :: c in trace ==> c == '0'
  {
    assert forall i :: 0 <= i < 32 ==> ZERO_TRACE[i] == '0';
    if forall c :: c in trace ==> c == '0' {
      assert forall i :: 0 <= i < 32 ==> trace[i] in trace;
    }
  }

  /** The shape is what the code checks of four hyphen-free fields. */
  lemma ShapeIsAccepted(raw: string, version: string, trace: string, span: string, flags: string)
    ensures HasShape(raw, version, trace, span, flags)
            <==> raw == Print(version, trace, span, flags) && '-' !in version && Accepted(version, trace, span, flags)
  {
    if |trace| == 32 {
      ZeroTraceListed(trace);
    }
  }

  /** `id` spells the same hexadecimal digits as `trace`, in lower case. */
  ghost predicate SameDigits(id: string, trace: string) {
    |id| == |trace| && forall i :: 0 <= i < |id| ==>
      (48 <= id[i] as int <= 57 || 97 <= id[i] as int <= 102) && UrlCodec.HexValue(id[i]) == UrlCodec.HexValue(trace[i])
  }

  lemma LowerSameDigits(trace: string)
    requires AllHex(trace)
    ensures SameDigits(Lower(trace), trace)
  {
    assert forall i :: 0 <= i < |trace| ==> IsHex(trace[i]);
  }

  lemma PrintParses(version: string, trace: string, span: string, flags: string)
    requires '-' !in version && VisibleAscii(version) && Accepted(version, trace, span, flags)
    ensures TraceId(Some(Print(version, trace, span, flags))) == Some(Lower(trace))
    ensures SameDigits(Lower(trace), trace)
  {
    LowerSameDigits(trace);
    var r3 := flags;
    var r2 := span + "-" + r3;
    var r1 := trace + "-" + r2;
    assert Print(version, trace, span, flags) == version + ['-'] + r1;
    assert r1 == trace + ['-'] + r2 && r2 == span + ['-'] + r3;
    UrlCodec.SplitFirstFinds(version, '-', r1);
    UrlCodec.SplitFirstFinds(trace, '-', r2);
    UrlCodec.SplitFirstFinds(span, '-', r3);
    UrlCodec.SplitFirstFinds(flags, '-', "");
  }

  lemma {:induction false} SplitFirstRejoins(s: string, sep: char)
    ensures var (left, right) := UrlCodec.SplitFirst(s, sep);
            sep !in left && s == left + if right.Some? then [sep] + right.value else ""
  {
    if s != "" && s[0] != sep {
      SplitFirstRejoins(s[1..], sep);
      assert s == [s[0]] + s[1..];
    }
  }

  /**
   Exact acceptance: a trace id comes out precisely for printable headers that are four fields of the
   required shape, and then it is the lower-cased second field.
   */
  lemma AcceptedExactly(raw: string)
    ensures TraceId(Some(raw)).Some?
            <==> (forall c :: c in raw ==> 32 <= c as int <= 126 || c as int == 9)
                 && exists v, t, s, f :: HasShape(raw, v, t, s, f)
    ensures forall v, t, s, f :: TraceId(Some(raw)).Some? && HasShape(raw, v, t, s, f) ==>
              TraceId(Some(raw)) == Some(Lower(t)) && SameDigits(Lower(t), t)
  {
    assert '\t' as int == 9;
    forall v, t, s, f | VisibleAscii(raw) && HasShape(raw, v, t, s, f)
      ensures TraceId(Some(raw)) == Some(Lower(t)) && SameDigits(Lower(t), t)
    {
      ShapeIsAccepted(raw, v, t, s, f);
      assert v <= raw;
      assert VisibleAscii(v) by {
        forall c | c in v ensures c in raw {
          var i :| 0 <= i < |v| && v[i] == c;
          assert raw[i] == c;
        }
      }
      PrintParses(v, t, s, f);
    }
    if TraceId(Some(raw)).Some? {
      var (v, r1) := UrlCodec.SplitFirst(raw, '-');
      var (t, r2) := UrlCodec.SplitFirst(r1.value, '-');
      var (s, r3) := UrlCodec.SplitFirst(r2.value, '-');
      var (f, r4) := UrlCodec.SplitFirst(r3.value, '-');
      SplitFirstRejoins(raw, '-');
      SplitFirstRejoins(r1.value, '-');
      SplitFirstRejoins(r2.value, '-');
      SplitFirstRejoins(r3.value, '-');
      assert raw == v + (['-'] + (t + (['-'] + (s + (['-'] + f)))));
      ShapeIsAccepted(raw, v, t, s, f);
      assert HasShape(raw, v, t, s, f);
    }
  }

  /** Every result is 32 lower-case hex digits, not all zero, and survives printing and reading again. */
  lemma ResultCanonical(header: Option<string>, span: string, flags: string)
    requires TraceId(header).Some?
    requires |span| == 16 && |flags| == 2 && AllHex(span) && AllHex(flags)
    ensures var id := TraceId(header).value;
            && |id| == 32 && id != ZERO_TRACE
            && (forall c :: c in id ==> '0' <= c <= '9' || 'a' <= c <= 'f')
            && TraceId(Some(Print("00", id, span, flags))) == Some(id)
  {
    AcceptedExactly(header.value);
    var v, t, s, f :| HasShape(header.value, v, t, s, f);
    ShapeIsAccepted(header.value, v, t, s, f);
    var id := Lower(t);
    forall i | 0 <= i < 32
      ensures '0' <= id[i] <= '9' || 'a' <= id[i] <= 'f'
    {
      assert IsHex(t[i]);
    }
    var i :| 0 <= i < 32 && t[i] != ZERO_TRACE[i];
    assert id[i] == LowerChar(t[i]) && IsHex(t[i]) && ZERO_TRACE[i] == '0';
    PrintParses("00", id, span, flags);
    assert Lower(id) == id;
  }

  // ----- against the standard -----------------------------------------------------------------

  /** HEXDIGLC of the standard. */
  predicate IsLowerHex(c: char) {
    '0' <= c <= '9' || 'a' <= c <= 'f'
  }

  predicate AllLowerHex(s: string) {
    forall c :: c in s ==> IsLowerHex(c)
  }

  const ZERO_PARENT := "0000000000000000"

  /**
   The four leading fields of a conforming header (section 3.2.2 of W3C Trace Context): lower-case hex of
   fixed lengths, a version other than ff, a trace id and a parent id that are not all zero.
   */
  predicate Conforming(version: string, trace: string, parent: string, flags: string) {
    && |version| == 2 && AllLowerHex(version) && version != "ff"
    && |trace| == 32 && AllLowerHex(trace) && trace != ZERO_TRACE
    && |parent| == 16 && AllLowerHex(parent) && parent != ZERO_PARENT
    && |flags| == 2 && AllLowerHex(flags)
  }

  predicate HasUpper(s: string) {
    exists c :: c in s && 'A' <= c <= 'Z'
  }

  /** Every conforming header of four fields is accepted, and its trace id comes out unchanged. */
  lemma ConformingAccepted(version: string, trace: string, parent: string, flags: string)
    requires Conforming(version, trace, parent, flags)
    ensures TraceId(Some(Print(version, trace, parent, flags))) == Some(trace)
  {
    PrintParses(version, trace, parent, flags);
    assert forall i :: 0 <= i < 32 ==> trace[i] in trace;
    assert Lower(trace) == trace;
  }

  lemma HexWithoutUpper(s: string)
    requires AllHex(s)
    ensures AllLowerHex(s) <==> !HasUpper(s)
  {
    forall c | c in s
      ensures IsLowerHex(c) <==> !('A' <= c <= 'Z')
    {
      assert IsHex(c);
    }
  }

  /**
   Which accepted headers conform, exactly: those whose version is lower-case hex other than ff, whose parent
   id is not all zero and in which no other field holds an upper-case digit.
   */
  lemma AcceptedConformsExactly(raw: string, version: string, trace: string, parent: string, flags: string)
    requires TraceId(Some(raw)).Some? && HasShape(raw, version, trace, parent, flags)
    ensures Conforming(version, trace, parent, flags)
            <==> AllLowerHex(version) && version != "ff" && parent != ZERO_PARENT
                 && !HasUpper(trace) && !HasUpper(parent) && !HasUpper(flags)
  {
    ShapeIsAccepted(raw, version, trace, parent, flags);
    HexWithoutUpper(trace);
    HexWithoutUpper(parent);
    HexWithoutUpper(flags);
  }

  /** Accepted against the standard, for every trace id and flags: any printable version, and a zero parent. */
  lemma NonConformingAccepted(version: string, trace: string, parent: string, flags: string)
    requires |version| == 2 && '-' !in version && VisibleAscii(version)
    requires |trace| == 32 && AllHex(trace) && trace != ZERO_TRACE
    requires |parent| == 16 && AllHex(parent) && |flags| == 2 && AllHex(flags)
    requires !AllLowerHex(version) || version == "ff" || parent == ZERO_PARENT
             || HasUpper(trace) || HasUpper(parent) || HasUpper(flags)
    ensures TraceId(Some(Print(version, trace, parent, flags))) == Some(Lower(trace))
    ensures !Conforming(version, trace, parent, flags)
  {
    PrintParses(version, trace, parent, flags);
    HexWithoutUpper(trace);
    HexWithoutUpper(parent);
    HexWithoutUpper(flags);
  }

  /**
   Every kind of deviation occurs, from any conforming header: a version that is not hex, version ff, a zero
   parent id, an upper-case digit.
   */
  lemma DeviationsAccepted(t: string, p: string)
    requires Conforming("00", t, p, "00")
    ensures TraceId(Some(Print("zz", t, p, "00"))) == Some(t) && !Conforming("zz", t, p, "00")
    ensures TraceId(Some(Print("ff", t, p, "00"))) == Some(t) && !Conforming("ff", t, p, "00")
    ensures TraceId(Some(Print("00", t, ZERO_PARENT, "00"))) == Some(t) && !Conforming("00", t, ZERO_PARENT, "00")
    ensures TraceId(Some(Print("00", t, p, "0A"))) == Some(t) && !Conforming("00", t, p, "0A")
  {
    ConformingAccepted("00", t, p, "00");
    PrintParses("00", t, p, "00");
    assert 'z' in "zz" && "0A"[1] == 'A' && 'A' in "0A";
    NonConformingAccepted("zz", t, p, "00");
    NonConformingAccepted("ff", t, p, "00");
    NonConformingAccepted("00", t, ZERO_PARENT, "00");
    NonConformingAccepted("00", t, p, "0A");
  }

  /** A header with further text after the flags, which section 3.2.4 foresees for versions above 00. */
  function PrintLong(version: string, trace: string, parent: string, flags: string, tail: Option<string>): string {
    Print(version, trace, parent, flags) + if tail.Some? then "-" + tail.value else ""
  }

  predicate ConformingLong(version: string, trace: string, parent: string, flags: string, tail: Option<string>) {
    Conforming(version, trace, parent, flags) && (tail.Some? ==> version != "00")
  }

  /** A fifth field is refused whatever the others hold. */
  lemma TailRefused(version: string, trace: string, parent: string, flags: string, tail: string)
    requires '-' !in version && '-' !in trace && '-' !in parent && '-' !in flags
    ensures TraceId(Some(PrintLong(version, trace, parent, flags, Some(tail)))) == None
  {
    var r3 := flags + ['-'] + tail;
    var r2 := parent + ['-'] + r3;
    var r1 := trace + ['-'] + r2;
    assert PrintLong(version, trace, parent, flags, Some(tail)) == version + ['-'] + r1;
    UrlCodec.SplitFirstFinds(version, '-', r1);
    UrlCodec.SplitFirstFinds(trace, '-', r2);
    UrlCodec.SplitFirstFinds(parent, '-', r3);
    UrlCodec.SplitFirstFinds(flags, '-', tail);
  }

  lemma LowerHexHasNoHyphen(s: string)
    requires AllLowerHex(s)
    ensures '-' !in s
  {
    assert !IsLowerHex('-');
  }

  /**
   Which conforming headers are accepted, exactly: those without a tail, and then the trace id comes out
   unchanged. Headers of a higher version that carry more fields conform and are refused.
   */
  lemma ConformingAcceptedExactly(
    version: string, trace: string, parent: string, flags: string, tail: Option<string>)
    requires ConformingLong(version, trace, parent, flags, tail)
    ensures TraceId(Some(PrintLong(version, trace, parent, flags, tail)))
            == if tail.None? then Some(trace) else None
  {
    if tail.Some? {
      LowerHexHasNoHyphen(version);
      LowerHexHasNoHyphen(trace);
      LowerHexHasNoHyphen(parent);
      LowerHexHasNoHyphen(flags);
      TailRefused(version, trace, parent, flags, tail.value);
    } else {
      ConformingAccepted(version, trace, parent, flags);
      assert PrintLong(version, trace, parent, flags, tail) == Print(version, trace, parent, flags);
    }
  }

  /** The refused ones exist: any conforming header becomes one by raising its version and adding a field. */
  lemma LongHeaderRefused(trace: string, parent: string, flags: string, tail: string)
    requires Conforming("00", trace, parent, flags)
    ensures ConformingLong("cc", trace, parent, flags, Some(tail))
    ensures TraceId(Some(PrintLong("cc", trace, parent, flags, Some(tail)))) == None
  {
    ConformingAcceptedExactly("cc", trace, parent, flags, Some(tail));
  }
}
