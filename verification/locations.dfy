/**
 * Where things go: the API base URL, the stored JSON path and rewritten URL
 * of a crawled endpoint (`get_and_save_json`), the query-string encoding they
 * use, and the local path of a downloaded file (`download_file`).
 */
module Locations {
  import opened Strings
  import opened RewriteRules

  /** `bitbucket_api_url`. */
  const ApiUrl: string := "https://api.bitbucket.org/2.0/"

  /** `bb_endpoint_to_full_url`: the API base URL followed by the endpoint. */
  function BbEndpointToFullUrl(endpoint: string): (url: string)
    ensures StartsWith(url, ApiUrl) && url[|ApiUrl|..] == endpoint
  {
    ApiUrl + endpoint
  }

  /**
   * The endpoint the crawler derives from the scheme, host and path of a URL:
   * every copy of the API base URL removed, then everything from the first
   * `?` on dropped.
   */
  function RelativeEndpoint(base: string): string {
    Field(ReplaceAll(base, ApiUrl, ""), '?', 0)
  }

  /** An endpoint without `?` and without the base URL inside comes back from its full URL. */
  lemma EndpointRoundTrip(endpoint: string)
    requires '?' !in endpoint && !Contains(endpoint, ApiUrl)
    ensures RelativeEndpoint(BbEndpointToFullUrl(endpoint)) == endpoint
  {
    ReplaceLeading(ApiUrl, endpoint, "");
    ReplaceAbsent(endpoint, ApiUrl, "");
  }

  // ---------------------------------------------------------------------------
  // quote_plus and urlencode(params, doseq=True)

  /** The characters `quote_plus` never encodes: ASCII letters and digits and `_.-~`. */
  predicate IsUnreserved(c: char) {
    'a' <= c <= 'z' || 'A' <= c <= 'Z' || IsDigit(c) || c == '_' || c == '.' || c == '-' || c == '~'
  }

  /** The UTF-8 encoding of one character (section 3 of RFC 3629). */
  function Utf8(c: char): (octets: seq<nat>)
    ensures 1 <= |octets| <= 4
    ensures forall j :: 0 <= j < |octets| ==> octets[j] < 256
    ensures |octets| == 1 <==> c as int < 0x80
    ensures |octets| == 1 ==> octets[0] == c as int
  {
    var v := c as int;
    if v < 0x80 then [v]
    else if v < 0x800 then [0xC0 + v / 0x40, 0x80 + v % 0x40]
    else if v < 0x1_0000 then [0xE0 + v / 0x1000, 0x80 + v / 0x40 % 0x40, 0x80 + v % 0x40]
    else [0xF0 + v / 0x4_0000, 0x80 + v / 0x1000 % 0x40, 0x80 + v / 0x40 % 0x40, 0x80 + v % 0x40]
  }

  /** `%XY` for each octet, with upper-case hexadecimal digits. */
  function EncodeOctets(octets: seq<nat>): (e: string)
    requires forall j :: 0 <= j < |octets| ==> octets[j] < 256
    ensures |e| == 3 * |octets|
    ensures forall j :: 0 <= j < |e| ==> e[j] == '%' || IsHexDigit(e[j])
  {
    if octets == [] then []
    else "%" + [HexDigitChar(octets[0] / 16), HexDigitChar(octets[0] % 16)] + EncodeOctets(octets[1..])
  }

  /** The text `quote_plus` gives one character. */
  function QuoteChar(c: char): (q: string)
    ensures forall j :: 0 <= j < |q| ==> IsUnreserved(q[j]) || q[j] == '+' || q[j] == '%'
  {
    if IsUnreserved(c) then [c] else if c == ' ' then "+" else EncodeOctets(Utf8(c))
  }

  /**
   * `parse.quote_plus(s, safe='')`: unreserved characters as they are, a
   * space as `+`, every other character as the `%XY` octets of its UTF-8
   * encoding.
   */
  function QuotePlus(s: string): (q: string)
    ensures forall j :: 0 <= j < |q| ==> IsUnreserved(q[j]) || q[j] == '+' || q[j] == '%'
  {
    if s == [] then [] else QuoteChar(s[0]) + QuotePlus(s[1..])
  }

  /** `parse.unquote_plus`: each `+` read as a space, then percent-decoded. */
  function UnquotePlus(s: string): string {
    PercentDecode(ReplaceAll(s, "+", " "))
  }

  /** Text made only of unreserved characters (such as `str()` of an integer or `None`) is not changed. */
  lemma {:induction false} QuotePlusKeepsUnreserved(s: string)
    requires forall j :: 0 <= j < |s| ==> IsUnreserved(s[j])
    ensures QuotePlus(s) == s
  {
    if s != [] {
      QuotePlusKeepsUnreserved(s[1..]);
    }
  }

  /** `str()` of an integer is its own quoted form. */
  lemma IntTextUnchanged(i: int)
    ensures QuotePlus(IntToString(i)) == IntToString(i)
  {
    var digits := NatToString(if i < 0 then -i else i);
    assert forall j :: 0 <= j < |digits| ==> IsUnreserved(digits[j]);
    if i < 0 {
      assert IntToString(i) == "-" + digits;
      assert forall j :: 0 < j < |IntToString(i)| ==> IntToString(i)[j] == digits[j - 1];
    }
    QuotePlusKeepsUnreserved(IntToString(i));
  }

  /** A space becomes `+` and a literal `+` is encoded, so the two stay apart. */
  lemma QuotePlusExamples()
    ensures QuotePlus("a b") == "a+b"
    ensures QuotePlus("+x") == "%2Bx"
  {
    assert QuotePlus("a b") == QuoteChar('a') + (QuoteChar(' ') + (QuoteChar('b') + []));
    assert QuoteChar('+') == EncodeOctets([43]);
    assert QuotePlus("+x") == QuoteChar('+') + (QuoteChar('x') + []);
  }

  /** `unquote_plus` undoes `quote_plus` on ASCII text. */
  lemma {:induction false} QuotePlusRoundTrip(s: string)
    requires forall j :: 0 <= j < |s| ==> s[j] as int < 0x80
    ensures UnquotePlus(QuotePlus(s)) == s
  {
    if s != [] {
      var c, rest := s[0], QuotePlus(s[1..]);
      QuotePlusRoundTrip(s[1..]);
      ReplaceCharConcat(QuoteChar(c), rest, '+', " ");
      QuoteCharDecodes(c, ReplaceAll(rest, "+", " "));
    }
  }

  /** One quoted ASCII character, with `+` read as a space, decodes back to the character. */
  lemma QuoteCharDecodes(c: char, tail: string)
    requires c as int < 0x80
    ensures PercentDecode(ReplaceAll(QuoteChar(c), "+", " ") + tail) == [c] + PercentDecode(tail)
  {
    if IsUnreserved(c) {
      ReplaceCharAbsent([c], '+', " ");
      assert ([c] + tail)[1..] == tail;
    } else if c == ' ' {
      ReplaceWhole("+", " ");
      assert (" " + tail)[1..] == tail;
    } else {
      var v := c as int;
      var e := EncodeOctets([v]);
      assert e == "%" + [HexDigitChar(v / 16), HexDigitChar(v % 16)];
      ReplaceCharAbsent(e, '+', " ");
      assert EncodedOctetAt(e + tail) && OctetValue(e + tail) == v;
      assert (e + tail)[3..] == tail;
    }
  }

  /** The `key=value` pairs of one entry: one per list element, `str(v)` otherwise, each part quoted. */
  function EncodeEntry(p: Param): (pairs: seq<string>)
    ensures p.value.List? ==> |pairs| == |p.value.items|
    ensures !p.value.List? ==> |pairs| == 1
    ensures forall j :: 0 <= j < |pairs| ==> StartsWith(pairs[j], QuotePlus(p.key) + "=")
  {
    var key := QuotePlus(p.key);
    match p.value
    case Null => [key + "=" + QuotePlus("None")]
    case Int(i) => [key + "=" + QuotePlus(IntToString(i))]
    case Str(s) => [key + "=" + QuotePlus(s)]
    case List(items) => EncodeItems(key, items)
  }

  function EncodeItems(key: string, items: seq<string>): (pairs: seq<string>)
    ensures |pairs| == |items|
    ensures forall j :: 0 <= j < |pairs| ==> pairs[j] == key + "=" + QuotePlus(items[j])
  {
    if items == [] then [] else [key + "=" + QuotePlus(items[0])] + EncodeItems(key, items[1..])
  }

  /**
   * A quoted pair holds exactly one `=` and no `&`, so splitting it at the
   * `=` and unquoting gives back the key and the value (ASCII text).
   */
  lemma EncodedPairRoundTrip(key: string, value: string)
    requires forall j :: 0 <= j < |key| ==> key[j] as int < 0x80
    requires forall j :: 0 <= j < |value| ==> value[j] as int < 0x80
    ensures '&' !in QuotePlus(key) + "=" + QuotePlus(value)
    ensures UnquotePlus(Field(QuotePlus(key) + "=" + QuotePlus(value), '=', 0)) == key
    ensures UnquotePlus(Field(QuotePlus(key) + "=" + QuotePlus(value), '=', 1)) == value
  {
    var k, v := QuotePlus(key), QuotePlus(value);
    assert '=' !in k && '=' !in v && '&' !in k && '&' !in v;
    FieldBeforeSeparator(k, '=', v);
    FieldAfterSeparator(k, '=', v);
    QuotePlusRoundTrip(key);
    QuotePlusRoundTrip(value);
  }

  function EncodePairs(ps: Params): seq<string> {
    if ps == [] then [] else EncodeEntry(ps[0]) + EncodePairs(ps[1..])
  }

  /** `parse.urlencode(params, doseq=True)`, the pairs joined by `&`. */
  function UrlEncode(ps: Params): string {
    Join("&", EncodePairs(ps))
  }

  /** A join of non-empty parts is empty only when there are no parts. */
  lemma {:induction false} JoinEmpty(parts: seq<string>)
    requires forall j :: 0 <= j < |parts| ==> parts[j] != []
    ensures Join("&", parts) == [] <==> parts == []
  {
    if |parts| > 1 {
      JoinEmpty(parts[1..]);
    }
  }

  /** Every encoded pair holds at least its `=`. */
  lemma {:induction false} EncodedPairsNonEmpty(ps: Params)
    ensures forall j :: 0 <= j < |EncodePairs(ps)| ==> EncodePairs(ps)[j] != []
  {
    if ps != [] {
      EncodedPairsNonEmpty(ps[1..]);
      EntryPairsNonEmpty(ps[0]);
      NonEmptyConcat(EncodeEntry(ps[0]), EncodePairs(ps[1..]));
    }
  }

  lemma NonEmptyConcat(a: seq<string>, b: seq<string>)
    requires forall j :: 0 <= j < |a| ==> a[j] != []
    requires forall j :: 0 <= j < |b| ==> b[j] != []
    ensures forall j :: 0 <= j < |a + b| ==> (a + b)[j] != []
  {
  }

  lemma EntryPairsNonEmpty(p: Param)
    ensures forall j :: 0 <= j < |EncodeEntry(p)| ==> EncodeEntry(p)[j] != []
  {
    var e, key := EncodeEntry(p), QuotePlus(p.key);
    forall j | 0 <= j < |e|
      ensures e[j] != []
    {
      assert StartsWith(e[j], key + "=");
      assert |key + "="| > 0;
    }
  }

  /** No pairs are encoded exactly when every parameter is an empty list. */
  lemma {:induction false} EncodePairsEmpty(ps: Params)
    ensures EncodePairs(ps) == [] <==> forall i :: 0 <= i < |ps| ==> ps[i].value == List([])
  {
    if ps != [] {
      EncodePairsEmpty(ps[1..]);
      assert EncodePairs(ps) == EncodeEntry(ps[0]) + EncodePairs(ps[1..]);
      assert EncodeEntry(ps[0]) == [] <==> ps[0].value == List([]);
      assert forall i :: 0 < i < |ps| ==> ps[i] == ps[1..][i - 1];
    }
  }

  /** The query string is empty exactly when every parameter is an empty list. */
  lemma UrlEncodeEmpty(ps: Params)
    ensures UrlEncode(ps) == [] <==> forall i :: 0 <= i < |ps| ==> ps[i].value == List([])
  {
    EncodedPairsNonEmpty(ps);
    EncodePairsEmpty(ps);
    JoinEmpty(EncodePairs(ps));
  }

  // ---------------------------------------------------------------------------
  // Paths and URLs of a crawled endpoint

  /** `os.path.join(a, b)` with POSIX separators. */
  function JoinPath(a: string, b: string): (p: string)
    ensures EndsWith(p, b)
  {
    if StartsWith(b, "/") then b
    else if a == [] || EndsWith(a, "/") then a + b
    else a + "/" + b
  }

  /**
   * The stored JSON path: the rewritten endpoint joined to the save directory,
   * immediately followed by the encoded parameters and `.json`.
   */
  function EndpointPath(savePath: string, endpoint: string, ps: Params): (p: string)
    ensures EndsWith(p, UrlEncode(ps) + ".json")
    ensures StartsWith(p, JoinPath(savePath, endpoint))
  {
    var tail := UrlEncode(ps) + ".json";
    ConcatEnds(JoinPath(savePath, endpoint), tail);
    JoinPath(savePath, endpoint) + tail
  }

  /** The URL the crawler queries: the full endpoint URL, plus `?` and the query only when it is non-empty. */
  function RewrittenUrl(endpoint: string, ps: Params): (url: string)
    ensures StartsWith(url, BbEndpointToFullUrl(endpoint))
  {
    var encoded := UrlEncode(ps);
    BbEndpointToFullUrl(endpoint) + (if encoded != [] then "?" + encoded else [])
  }

  /**
   * Crawling a rewritten URL again yields the same endpoint: the query that
   * was appended is cut off at its `?`.
   */
  lemma RewrittenUrlEndpoint(endpoint: string, ps: Params)
    requires '?' !in endpoint
    requires !Contains(endpoint + "?" + UrlEncode(ps), ApiUrl) && !Contains(endpoint, ApiUrl)
    ensures RelativeEndpoint(RewrittenUrl(endpoint, ps)) == endpoint
  {
    var encoded := UrlEncode(ps);
    if encoded == [] {
      assert RewrittenUrl(endpoint, ps) == ApiUrl + endpoint;
      EndpointRoundTrip(endpoint);
    } else {
      QueryCutOff(endpoint, encoded);
      assert RewrittenUrl(endpoint, ps) == ApiUrl + (endpoint + "?" + encoded);
    }
  }

  lemma QueryCutOff(endpoint: string, encoded: string)
    requires '?' !in endpoint && !Contains(endpoint + "?" + encoded, ApiUrl)
    ensures RelativeEndpoint(ApiUrl + (endpoint + "?" + encoded)) == endpoint
  {
    var tail := endpoint + "?" + encoded;
    ReplaceLeading(ApiUrl, tail, "");
    ReplaceAbsent(tail, ApiUrl, "");
    assert ReplaceAll(ApiUrl + tail, ApiUrl, "") == tail;
    FieldBeforeSeparator(endpoint, '?', encoded);
  }

  // ---------------------------------------------------------------------------
  // Percent-decoding (section 2.1 of RFC 3986)

  function HexValue(c: char): (v: nat)
    requires IsHexDigit(c)
    ensures v < 16
  {
    if IsDigit(c) then c as int - '0' as int
    else if 'a' <= c <= 'f' then c as int - 'a' as int + 10
    else c as int - 'A' as int + 10
  }

  /** `s` begins with a percent-encoded octet. */
  predicate EncodedOctetAt(s: string) {
    |s| >= 3 && s[0] == '%' && IsHexDigit(s[1]) && IsHexDigit(s[2])
  }

  function OctetValue(s: string): (v: nat)
    requires EncodedOctetAt(s)
    ensures v < 256
  {
    16 * HexValue(s[1]) + HexValue(s[2])
  }

  /**
   * `parse.unquote`: each `%` followed by two hexadecimal digits (either
   * case) becomes the octet they denote; any other `%` stays as it is. Each
   * octet is taken as the character with that code.
   */
  function PercentDecode(s: string): string {
    if s == [] then []
    else if EncodedOctetAt(s) then [OctetValue(s) as char] + PercentDecode(s[3..])
    else [s[0]] + PercentDecode(s[1..])
  }

  function HexDigitChar(v: nat): (c: char)
    requires v < 16
    ensures IsHexDigit(c) && HexValue(c) == v
  {
    if v < 10 then DigitChar(v) else ('A' as int + v - 10) as char
  }

  /** Percent-encodes every character: each octet of its UTF-8 encoding becomes `%XY`. */
  function PercentEncode(s: string): (e: string)
    ensures |e| >= 3 * |s|
    ensures (forall j :: 0 <= j < |s| ==> s[j] as int < 0x80) ==> |e| == 3 * |s|
  {
    if s == [] then [] else EncodeOctets(Utf8(s[0])) + PercentEncode(s[1..])
  }

  /** Decoding undoes encoding for ASCII text, whose characters are single octets. */
  lemma {:induction false} PercentRoundTrip(s: string)
    requires forall j :: 0 <= j < |s| ==> s[j] as int < 0x80
    ensures PercentDecode(PercentEncode(s)) == s
  {
    if s != [] {
      var e := PercentEncode(s);
      var v := s[0] as int;
      assert EncodeOctets(Utf8(s[0])) == "%" + [HexDigitChar(v / 16), HexDigitChar(v % 16)];
      assert EncodedOctetAt(e) && OctetValue(e) == v;
      assert e[3..] == PercentEncode(s[1..]);
      PercentRoundTrip(s[1..]);
    }
  }

  // ---------------------------------------------------------------------------
  // Download paths

  /** The characters stripped from a download path. */
  const SpecialChars: seq<char> := ['?', ':', '\\', '*', '<', '>', '"', '|']

  function RemoveChars(s: string, cs: seq<char>): string {
    if cs == [] then s else RemoveChar(RemoveChars(s, cs[..|cs| - 1]), cs[|cs| - 1])
  }

  /** After removing each of `cs` in turn none of them remains, and every other character is kept. */
  lemma {:induction false} RemoveCharsSpec(s: string, cs: seq<char>, d: char)
    ensures forall j :: 0 <= j < |cs| ==> cs[j] !in RemoveChars(s, cs)
    ensures d !in cs ==> (d in RemoveChars(s, cs) <==> d in s)
  {
    if cs != [] {
      var init := cs[..|cs| - 1];
      var last := cs[|cs| - 1];
      RemoveCharsSpec(s, init, d);
      forall j | 0 <= j < |cs|
        ensures cs[j] !in RemoveChars(s, cs)
      {
        RemoveCharSpec(RemoveChars(s, init), last, cs[j]);
        if j < |cs| - 1 {
          RemoveCharsSpec(s, init, cs[j]);
          assert init[j] == cs[j];
        }
      }
      RemoveCharSpec(RemoveChars(s, init), last, d);
    }
  }

  /** The scheme and API prefixes removed from a decoded download URL. */
  function StripPrefixes(decoded: string): string {
    ReplaceAll(ReplaceAll(ReplaceAll(decoded, ApiUrl, ""), "https://", ""), "http://", "")
  }

  /**
   * The path computation as written: `%2F` removed, then decoded, then the
   * prefixes stripped. A lower-case `%2f` is not removed but still decodes to
   * a slash.
   */
  function SanitisedAsWritten(url: string): string {
    RemoveChars(StripPrefixes(PercentDecode(ReplaceAll(url, "%2F", ""))), SpecialChars)
  }

  predicate IsEncodedSlash(s: string) {
    EncodedOctetAt(s) && OctetValue(s) == '/' as int
  }

  /**
   * Percent-decoding that drops encoded slashes (`%2F` or `%2f`) instead of
   * decoding them, so that only the address's own slashes separate
   * directories.
   */
  function DecodeDroppingSlashes(s: string): string {
    if s == [] then []
    else if IsEncodedSlash(s) then DecodeDroppingSlashes(s[3..])
    else if EncodedOctetAt(s) then [OctetValue(s) as char] + DecodeDroppingSlashes(s[3..])
    else [s[0]] + DecodeDroppingSlashes(s[1..])
  }

  function CountChar(s: string, c: char): nat {
    if s == [] then 0 else (if s[0] == c then 1 else 0) + CountChar(s[1..], c)
  }

  lemma {:induction false} CountCharAppend(a: string, b: string, c: char)
    ensures CountChar(a + b, c) == CountChar(a, c) + CountChar(b, c)
  {
    if a == [] {
      assert a + b == b;
    } else {
      assert (a + b)[0] == a[0];
      assert (a + b)[1..] == a[1..] + b;
      CountCharAppend(a[1..], b, c);
    }
  }

  /** Decoding that drops encoded slashes yields exactly the slashes written literally. */
  lemma {:induction false} NoDecodedSlashes(s: string)
    ensures CountChar(DecodeDroppingSlashes(s), '/') == CountChar(s, '/')
  {
    if s != [] {
      if IsEncodedSlash(s) {
        NoDecodedSlashes(s[3..]);
        CountOctet(s);
      } else if EncodedOctetAt(s) {
        NoDecodedSlashes(s[3..]);
        CountCharAppend([OctetValue(s) as char], DecodeDroppingSlashes(s[3..]), '/');
        CountOctet(s);
      } else {
        NoDecodedSlashes(s[1..]);
        CountCharAppend([s[0]], DecodeDroppingSlashes(s[1..]), '/');
      }
    }
  }

  /** An encoded octet holds no literal slash. */
  lemma CountOctet(s: string)
    requires EncodedOctetAt(s)
    ensures CountChar(s, '/') == CountChar(s[3..], '/')
  {
    assert s[1..][1..][1..] == s[3..];
    assert CountChar(s, '/') == CountChar(s[1..], '/');
    assert CountChar(s[1..], '/') == CountChar(s[1..][1..], '/');
  }

  /** The download path below the save directory. */
  function Sanitised(url: string): string {
    RemoveChars(StripPrefixes(DecodeDroppingSlashes(url)), SpecialChars)
  }

  /**
   * `download_file`'s path computation: decode, strip the prefixes, then
   * remove the special characters one after another.
   */
  method SanitisePath(url: string) returns (path: string)
    ensures path == Sanitised(url)
    ensures forall j :: 0 <= j < |SpecialChars| ==> SpecialChars[j] !in path
  {
    path := StripPrefixes(DecodeDroppingSlashes(url));
    ghost var start := path;
    for k := 0 to |SpecialChars|
      invariant path == RemoveChars(start, SpecialChars[..k])
    {
      assert SpecialChars[..k + 1][..k] == SpecialChars[..k];
      path := RemoveChar(path, SpecialChars[k]);
    }
    assert SpecialChars[..|SpecialChars|] == SpecialChars;
    RemoveCharsSpec(start, SpecialChars, 'a');
  }

  /** A lower-case encoded slash passes the `%2F` removal and becomes a directory separator. */
  lemma LowerCaseSlashSurvives()
    ensures CountChar("a%2fb", '/') == 0
    ensures SanitisedAsWritten("a%2fb") == "a/b"
    ensures Sanitised("a%2fb") == "ab"
  {
    AsWrittenKeepsSlash();
    CorrectedDropsSlash();
  }

  lemma AsWrittenKeepsSlash()
    ensures SanitisedAsWritten("a%2fb") == "a/b"
  {
    UpperCaseRemovalMisses();
    LowerCaseDecodes();
    ColonFreeKeepsPrefixes("a/b");
    PlainHasNoSpecials("a/b");
    KeepsWhenAbsent("a/b", SpecialChars);
  }

  lemma CorrectedDropsSlash()
    ensures Sanitised("a%2fb") == "ab"
  {
    LowerCaseDecodes();
    ColonFreeKeepsPrefixes("ab");
    PlainHasNoSpecials("ab");
    KeepsWhenAbsent("ab", SpecialChars);
  }

  lemma UpperCaseRemovalMisses()
    ensures ReplaceAll("a%2fb", "%2F", "") == "a%2fb"
  {
    var s := "a%2fb";
    assert s[3] == 'f';
    forall i: nat | i <= |s|
      ensures !OccursAt(s, "%2F", i)
    {
      if i + 3 <= |s| {
        assert s[i..i + 3][0] == s[i];
        assert i == 1 ==> s[i..i + 3][2] == 'f';
      }
    }
    ReplaceAbsent(s, "%2F", "");
  }

  lemma LowerCaseDecodes()
    ensures PercentDecode("a%2fb") == "a/b"
    ensures DecodeDroppingSlashes("a%2fb") == "ab"
  {
    var s := "a%2fb";
    assert !EncodedOctetAt(s) && s[1..] == "%2fb";
    assert EncodedOctetAt("%2fb") && OctetValue("%2fb") == '/' as int && "%2fb"[3..] == "b";
  }

  /** Lower-case letters and slashes are none of the special characters. */
  lemma PlainHasNoSpecials(s: string)
    requires forall i :: 0 <= i < |s| ==> 'a' <= s[i] <= 'z' || s[i] == '/'
    ensures forall j :: 0 <= j < |SpecialChars| ==> SpecialChars[j] !in s
  {
    forall j | 0 <= j < |SpecialChars|
      ensures SpecialChars[j] !in s
    {
      var c := SpecialChars[j];
      assert c in "?:\\*<>\"|";
      assert !('a' <= c <= 'z') && c != '/';
    }
  }

  /** Every prefix the path computation strips holds a colon, so a colon-free path keeps them all. */
  lemma ColonFreeKeepsPrefixes(s: string)
    requires ':' !in s
    ensures StripPrefixes(s) == s
  {
    ColonFreeHasNo(s, ApiUrl, 5);
    ReplaceAbsent(s, ApiUrl, "");
    ColonFreeHasNo(s, "https://", 5);
    ReplaceAbsent(s, "https://", "");
    ColonFreeHasNo(s, "http://", 4);
    ReplaceAbsent(s, "http://", "");
  }

  lemma ColonFreeHasNo(s: string, p: string, k: nat)
    requires ':' !in s && k < |p| && p[k] == ':'
    ensures !Contains(s, p)
  {
    forall i: nat | i <= |s|
      ensures !OccursAt(s, p, i)
    {
      if i + |p| <= |s| {
        assert s[i..i + |p|][k] == s[i + k];
      }
    }
  }

  /** Removing characters that do not occur changes nothing. */
  lemma {:induction false} KeepsWhenAbsent(s: string, cs: seq<char>)
    requires forall j :: 0 <= j < |cs| ==> cs[j] !in s
    ensures RemoveChars(s, cs) == s
  {
    if cs != [] {
      KeepsWhenAbsent(s, cs[..|cs| - 1]);
      RemoveCharAbsent(s, cs[|cs| - 1]);
    }
  }

  lemma {:induction false} RemoveCharAbsent(s: string, c: char)
    requires c !in s
    ensures RemoveChar(s, c) == s
  {
    if s != [] {
      RemoveCharAbsent(s[1..], c);
    }
  }
}
