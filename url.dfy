/**
  The two services of Go's net/url that link rewriting uses: url.Parse, reduced
  to "does it fail, and which scheme does it find", and url.PathUnescape, the
  percent-decoding of section 2.1 of RFC 3986.
 */
module Url {
  import opened Wrappers
  import opened Text

  predicate IsAlpha(c: char) {
    'a' <= c <= 'z' || 'A' <= c <= 'Z'
  }

  predicate IsDigit(c: char) {
    '0' <= c <= '9'
  }

  /** ALPHA / DIGIT / "+" / "-" / "." (section 3.1 of RFC 3986). */
  predicate IsSchemeChar(c: char) {
    IsAlpha(c) || IsDigit(c) || c == '+' || c == '-' || c == '.'
  }

  /** An ASCII control byte, which url.Parse refuses. */
  predicate IsControl(c: char) {
    c < ' ' || c as int == 127
  }

  predicate HasControl(s: string) {
    exists k :: 0 <= k < |s| && IsControl(s[k])
  }

  datatype SchemeScan = NoScheme | MissingScheme | Scheme(name: string)

  /** Go's getScheme: scans a leading ALPHA *( ALPHA / DIGIT / "+" / "-" / "." ) ":". */
  function GetScheme(s: string): SchemeScan {
    ScanScheme(s, 0)
  }

  function ScanScheme(s: string, i: nat): SchemeScan
    requires i <= |s|
    decreases |s| - i
  {
    if i == |s| then NoScheme
    else if IsAlpha(s[i]) then ScanScheme(s, i + 1)
    else if IsSchemeChar(s[i]) then (if i == 0 then NoScheme else ScanScheme(s, i + 1))
    else if s[i] == ':' then (if i == 0 then MissingScheme else Scheme(s[..i]))
    else NoScheme
  }

  /** `name` followed by ':' starts `s`, and `name` is a scheme per section 3.1 of RFC 3986. */
  ghost predicate IsSchemePrefix(s: string, name: string) {
    && 1 <= |name| < |s|
    && s[..|name|] == name
    && s[|name|] == ':'
    && IsAlpha(name[0])
    && forall k :: 0 <= k < |name| ==> IsSchemeChar(name[k])
  }

  lemma {:induction false} ScanSchemeSound(s: string, i: nat)
    requires i <= |s|
    requires forall k :: 0 <= k < i ==> IsSchemeChar(s[k])
    requires 0 < i ==> IsAlpha(s[0])
    ensures ScanScheme(s, i).Scheme? ==> IsSchemePrefix(s, ScanScheme(s, i).name)
    decreases |s| - i
  {
    if i < |s| && IsSchemeChar(s[i]) && (i > 0 || IsAlpha(s[i])) {
      ScanSchemeSound(s, i + 1);
    }
  }

  lemma {:induction false} ScanSchemeComplete(s: string, name: string, i: nat)
    requires IsSchemePrefix(s, name)
    requires i <= |name|
    ensures ScanScheme(s, i) == Scheme(name)
    decreases |s| - i
  {
    assert s[i] == if i < |name| then name[i] else ':';
    if i < |name| {
      ScanSchemeComplete(s, name, i + 1);
    }
  }

  /** Go finds a scheme exactly when `s` starts with an RFC 3986 scheme and a ':'. */
  lemma GetSchemeIsRfcScheme(s: string, name: string)
    ensures GetScheme(s).Scheme? ==> IsSchemePrefix(s, GetScheme(s).name)
    ensures IsSchemePrefix(s, name) ==> GetScheme(s) == Scheme(name)
  {
    ScanSchemeSound(s, 0);
    if IsSchemePrefix(s, name) {
      ScanSchemeComplete(s, name, 0);
    }
  }

  predicate IsHex(c: char) {
    IsDigit(c) || 'a' <= c <= 'f' || 'A' <= c <= 'F'
  }

  function HexValue(c: char): (v: nat)
    requires IsHex(c)
    ensures v < 16
  {
    if IsDigit(c) then c as nat - '0' as nat
    else if 'a' <= c <= 'f' then c as nat - 'a' as nat + 10
    else c as nat - 'A' as nat + 10
  }

  /** The upper-case hexadecimal digit of `v`. */
  function HexDigit(v: nat): (c: char)
    requires v < 16
    ensures IsHex(c) && HexValue(c) == v
  {
    if v < 10 then ('0' as nat + v) as char else ('A' as nat + v - 10) as char
  }

  /**
    url.PathUnescape: every '%' must start a two-hex-digit escape, which stands
    for the byte it spells; any other character stands for itself. A '%' that
    does not start a valid escape makes decoding fail.
   */
  function PercentDecode(s: string): (r: Option<string>)
    ensures r.Some? ==> |r.value| <= |s|
    decreases |s|
  {
    if |s| == 0 then Some("")
    else if s[0] == '%' then
      if |s| >= 3 && IsHex(s[1]) && IsHex(s[2]) then
        match PercentDecode(s[3..])
        case None => None
        case Some(rest) => Some([(16 * HexValue(s[1]) + HexValue(s[2])) as char] + rest)
      else None
    else
      match PercentDecode(s[1..])
      case None => None
      case Some(rest) => Some([s[0]] + rest)
  }

  /** A string without '%' decodes to itself. */
  lemma {:induction false} DecodeWithoutPercent(s: string)
    requires '%' !in s
    ensures PercentDecode(s) == Some(s)
  {
    if |s| > 0 {
      assert s[0] in s;
      assert forall k :: 0 <= k < |s| - 1 ==> s[1..][k] in s;
      DecodeWithoutPercent(s[1..]);
      assert s == [s[0]] + s[1..];
    }
  }

  predicate IsUnreserved(c: char) {
    IsAlpha(c) || IsDigit(c) || c == '-' || c == '.' || c == '_' || c == '~'
  }

  predicate IsByteString(s: string) {
    forall k :: 0 <= k < |s| ==> s[k] as nat < 256
  }

  /** Percent-encoding (section 2.1 of RFC 3986) of every byte outside the unreserved set. */
  function PercentEncode(s: string): string
    requires IsByteString(s)
  {
    if |s| == 0 then ""
    else
      var c := s[0];
      var head := if IsUnreserved(c) then [c] else ['%', HexDigit(c as nat / 16), HexDigit(c as nat % 16)];
      head + PercentEncode(s[1..])
  }

  /** Decoding undoes encoding. */
  lemma {:induction false} DecodeEncode(s: string)
    requires IsByteString(s)
    ensures PercentDecode(PercentEncode(s)) == Some(s)
  {
    if |s| > 0 {
      var c := s[0];
      var tail := PercentEncode(s[1..]);
      DecodeEncode(s[1..]);
      if IsUnreserved(c) {
        assert PercentEncode(s) == [c] + tail;
        assert (PercentEncode(s))[1..] == tail;
      } else {
        var e := PercentEncode(s);
        assert e == ['%', HexDigit(c as nat / 16), HexDigit(c as nat % 16)] + tail;
        assert e[3..] == tail;
        assert (16 * (c as nat / 16) + c as nat % 16) as char == c;
      }
      assert s == [c] + s[1..];
    }
  }

  /** s up to (not including) the first `c`. */
  function Before(s: string, c: char): (r: string)
    ensures |r| <= |s| && s[..|r|] == r && c !in r
  {
    s[..FirstIndex(s, c)]
  }

  /** s after the first `c`, or "" when `s` has none. */
  function After(s: string, c: char): string
  {
    var i := FirstIndex(s, c);
    if i < |s| then s[i + 1..] else ""
  }

  datatype Parsed = Failed | Parsed(scheme: string)

  /**
    url.Parse, reduced to what link rewriting reads: whether it fails and the
    scheme it finds. The fragment (after the first '#') and the path (before
    the first '?') must hold only valid escapes; the part before the fragment
    must hold no control byte and must not start with ':'; a scheme-less
    reference whose first path segment holds a ':' is refused (section 3.3 of
    RFC 3986); a reference with a scheme and no '/' after it is opaque, and its
    path is not checked. Authority (host, port, user information) validation is
    not part of this model.
   */
  function Parse(href: string): (p: Parsed)
    ensures p.Parsed? && p.scheme != "" ==> IsSchemePrefix(Before(href, '#'), p.scheme)
  {
    var u := Before(href, '#');
    var frag := After(href, '#');
    GetSchemeIsRfcScheme(u, "");
    if HasControl(u) then Failed
    else match GetScheme(u)
      case MissingScheme => Failed
      case NoScheme =>
        var path := Before(u, '?');
        if ':' in Before(path, '/') then Failed
        else if PercentDecode(path).None? || PercentDecode(frag).None? then Failed
        else Parsed("")
      case Scheme(name) =>
        var path := Before(u[|name| + 1..], '?');
        if |path| > 0 && path[0] == '/' && PercentDecode(path).None? then Failed
        else if PercentDecode(frag).None? then Failed
        else Parsed(name)
  }
}
