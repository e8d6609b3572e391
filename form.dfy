/** The POST body parser of `do_POST` (main.py:48-51): the whole body is
    percent-decoded with `urllib.parse.unquote_plus`, then split on `&`, and
    every piece is split on `=`; element [0] becomes the key and element [1]
    the value, later keys overwriting earlier ones. */
module Form {
  import opened Wrappers
  import opened Strings

  /** One submitted form: field name to field value. */
  type Entry = map<string, string>

  /** The `IndexError` raised by `item.split("=")[1]` on a piece without `=`;
      `segment` is the position of the first such piece, where the dict
      comprehension stops. */
  datatype FormError = IndexError(segment: nat)

  predicate IsHexDigit(c: char)
  {
    '0' <= c <= '9' || 'a' <= c <= 'f' || 'A' <= c <= 'F'
  }

  function HexValue(c: char): (v: nat)
    requires IsHexDigit(c)
    ensures v < 16
  {
    if '0' <= c <= '9' then c as int - '0' as int
    else if 'a' <= c <= 'f' then c as int - 'a' as int + 10
    else c as int - 'A' as int + 10
  }

  /** The upper-case hex digit of a value below 16. */
  function HexDigit(v: nat): (c: char)
    requires v < 16
    ensures IsHexDigit(c) && HexValue(c) == v
  {
    if v < 10 then ('0' as int + v) as char else ('A' as int + v - 10) as char
  }

  /** `unquote_plus`: `+` becomes a space, `%` followed by two hex digits
      (either case) becomes the character with that code, and any other `%`
      stays as it is. */
  function Decode(s: string): (r: string)
    ensures |r| <= |s|
  {
    if |s| == 0 then ""
    else if s[0] == '+' then " " + Decode(s[1..])
    else if s[0] == '%' && |s| >= 3 && IsHexDigit(s[1]) && IsHexDigit(s[2]) then
      [(16 * HexValue(s[1]) + HexValue(s[2])) as char] + Decode(s[3..])
    else
      assert s == [s[0]] + s[1..];
      [s[0]] + Decode(s[1..])
  }

  /** Text without `%` and `+` decodes to itself. */
  lemma {:induction false} DecodePlainText(s: string)
    requires '%' !in s && '+' !in s
    ensures Decode(s) == s
    decreases |s|
  {
    if |s| > 0 {
      DecodePlainText(s[1..]);
      assert s == [s[0]] + s[1..];
    }
  }

  /** Characters a form encoder leaves as they are: ASCII letters and digits,
      `_.-~`, and everything outside ASCII. */
  predicate KeptLiteral(c: char)
  {
    'a' <= c <= 'z' || 'A' <= c <= 'Z' || '0' <= c <= '9' || c in "_.-~" || c as int >= 128
  }

  function EncodeChar(c: char): (r: string)
  {
    if c == ' ' then "+"
    else if KeptLiteral(c) then [c]
    else ['%', HexDigit(c as int / 16), HexDigit(c as int % 16)]
  }

  /** `quote_plus` as `urlencode` applies it to each field name and value:
      a space becomes `+`, ASCII letters, digits and `_.-~` stay, every other
      ASCII character becomes `%XX`. Non-ASCII characters are kept as they
      are (where `quote_plus` escapes their UTF-8 bytes). This is the
      reference inverse of `Decode`. */
  function Encode(s: string): (r: string)
  {
    if |s| == 0 then "" else EncodeChar(s[0]) + Encode(s[1..])
  }

  /** An encoded text holds no literal `&` or `=`, so the separators the
      parser splits on can only come from the form's own structure. */
  lemma {:induction false} EncodedHasNoSeparators(s: string)
    ensures '&' !in Encode(s) && '=' !in Encode(s)
    decreases |s|
  {
    if |s| > 0 {
      EncodedHasNoSeparators(s[1..]);
      assert '&' !in EncodeChar(s[0]) && '=' !in EncodeChar(s[0]);
    }
  }

  /** A character that is neither `%` nor `+` decodes to itself. */
  lemma {:induction false} DecodeLiteral(c: char, t: string)
    requires c != '%' && c != '+'
    ensures Decode([c] + t) == [c] + Decode(t)
  {
    assert ([c] + t)[1..] == t;
  }

  lemma {:induction false} DecodeEncodeChar(c: char, t: string)
    ensures Decode(EncodeChar(c) + t) == [c] + Decode(t)
  {
    var s := EncodeChar(c) + t;
    if c == ' ' {
      assert s[1..] == t;
    } else if KeptLiteral(c) {
      DecodeLiteral(c, t);
    } else {
      var n := c as int;
      assert s[0] == '%' && s[1] == HexDigit(n / 16) && s[2] == HexDigit(n % 16);
      assert 16 * (n / 16) + n % 16 == n;
      assert s[3..] == t;
    }
  }

  /** Decoding undoes encoding, and an encoded prefix does not disturb the
      decoding of what follows it. */
  lemma {:induction false} DecodeEncode(w: string, t: string)
    ensures Decode(Encode(w) + t) == w + Decode(t)
    decreases |w|
  {
    if |w| > 0 {
      var u := Encode(w[1..]) + t;
      assert Encode(w) + t == EncodeChar(w[0]) + u;
      DecodeEncodeChar(w[0], u);
      DecodeEncode(w[1..], t);
      assert w == [w[0]] + w[1..];
    } else {
      assert Encode(w) + t == t;
    }
  }

  lemma {:induction false} DecodeOfEncode(w: string)
    ensures Decode(Encode(w)) == w
  {
    DecodeEncode(w, "");
    assert Encode(w) + "" == Encode(w);
  }

  /** The key a piece contributes: element [0] of its split on `=`. */
  function SegmentKey(segment: string): (k: string)
  {
    Split(segment, '=')[0]
  }

  /** The value a piece contributes: element [1] of its split on `=`. */
  function SegmentValue(segment: string): (v: string)
    requires '=' in segment
  {
    Split(segment, '=')[1]
  }

  /** `(item.split("=")[0], item.split("=")[1])`, or `None` where indexing
      [1] raises. */
  function SplitPair(segment: string): (r: Option<(string, string)>)
    ensures r.Some? <==> '=' in segment
    ensures r.Some? ==> r.value == (SegmentKey(segment), SegmentValue(segment))
  {
    var parts := Split(segment, '=');
    if |parts| < 2 then None else Some((parts[0], parts[1]))
  }

  /** The dict comprehension over the pieces, in order: the first piece
      without `=` raises, and a later key overwrites an earlier one. */
  function CollectPairs(segments: seq<string>): (r: Result<Entry, FormError>)
    ensures r.Ok? <==> forall i :: 0 <= i < |segments| ==> '=' in segments[i]
    ensures r.Err? ==> r.error.segment < |segments| && '=' !in segments[r.error.segment] &&
                       forall j :: 0 <= j < r.error.segment ==> '=' in segments[j]
    decreases |segments|
  {
    if |segments| == 0 then Ok(map[])
    else
      var last := |segments| - 1;
      assert forall j :: 0 <= j < last ==> segments[..last][j] == segments[j];
      match CollectPairs(segments[..last])
      case Err(e) => Err(e)
      case Ok(m) =>
        match SplitPair(segments[last])
        case None => Err(IndexError(last))
        case Some((k, v)) => Ok(m[k := v])
  }

  /** The pieces the comprehension iterates over: the `&`-separated pieces
      of the decoded body (decoding comes first). There is always at least
      one, none holds `&`, and joined with `&` they give back the decoded
      body. */
  function Segments(body: string): (segments: seq<string>)
    ensures |segments| >= 1
    ensures forall i :: 0 <= i < |segments| ==> '&' !in segments[i]
    ensures Join(segments, '&') == Decode(body)
  {
    SplitPiecesFree(Decode(body), '&');
    JoinSplit(Decode(body), '&');
    Split(Decode(body), '&')
  }

  /** The parser of main.py:48-51. It succeeds exactly when every piece of
      the decoded body holds an `=`, and otherwise names the first piece that
      does not. */
  function ParseForm(body: string): (r: Result<Entry, FormError>)
    ensures r.Ok? <==> forall i :: 0 <= i < |Segments(body)| ==> '=' in Segments(body)[i]
    ensures r.Err? ==> r.error.segment < |Segments(body)| && '=' !in Segments(body)[r.error.segment] &&
                       forall j :: 0 <= j < r.error.segment ==> '=' in Segments(body)[j]
  {
    CollectPairs(Segments(body))
  }

  /** The key of a piece with `=` is the text before its first `=`, and its
      value the text before the next `=` after that. */
  lemma {:induction false} KeyAndValue(segment: string)
    requires '=' in segment
    ensures var k := BeforeFirst(segment, '=');
            SegmentKey(segment) == k && SegmentValue(segment) == BeforeFirst(segment[|k| + 1..], '=')
  {
    SplitAtFirst(segment, '=');
    FirstPiece(segment[IndexOfAny(segment, {'='}) + 1..], '=');
  }

  /** A piece with `=` yields as key the text before its first `=` and as
      value the text between its first and second `=` (or its end); the rest
      of the piece is dropped. */
  lemma {:induction false} SegmentShape(segment: string)
    requires '=' in segment
    ensures '=' !in SegmentKey(segment) && '=' !in SegmentValue(segment)
    ensures var n := |SegmentKey(segment)| + 1 + |SegmentValue(segment)|;
            n <= |segment| &&
            segment[..n] == SegmentKey(segment) + "=" + SegmentValue(segment) &&
            (n == |segment| || segment[n] == '=')
  {
    KeyAndValue(segment);
    var k := BeforeFirst(segment, '=');
    PieceLayout(segment, k, segment[|k| + 1..]);
  }

  /** `k`, then `=`, then a tail: the tail's first `=`-free stretch follows
      the `=` directly. */
  lemma {:induction false} PieceLayout(segment: string, k: string, tail: string)
    requires |k| < |segment| && segment[..|k|] == k && segment[|k|] == '='
    requires tail == segment[|k| + 1..]
    ensures var v := BeforeFirst(tail, '=');
            var n := |k| + 1 + |v|;
            n <= |segment| && segment[..n] == k + "=" + v && (n == |segment| || segment[n] == '=')
  {
    var v := BeforeFirst(tail, '=');
    assert segment == k + ['='] + tail;
    assert tail[..|v|] == v;
    assert segment[..|k| + 1 + |v|] == k + ['='] + tail[..|v|];
  }

  /** Conversely, `k=v` followed by nothing or by another `=` yields exactly
      the pair (k, v), whatever comes after. */
  lemma {:induction false} PairOfSegment(k: string, v: string, rest: string)
    requires '=' !in k && '=' !in v
    requires rest == "" || rest[0] == '='
    ensures SplitPair(k + "=" + v + rest) == Some((k, v))
  {
    var tail := v + rest;
    var s := k + ("=" + tail);
    assert k + "=" + v + rest == s;
    SplitAfterKey(k, tail);
    ValueBeforeNextEquals(v, rest);
  }

  /** Splitting `k=tail` on `=` gives k followed by the split of tail. */
  lemma {:induction false} SplitAfterKey(k: string, tail: string)
    requires '=' !in k
    ensures Split(k + ("=" + tail), '=') == [k] + Split(tail, '=')
  {
    var s := k + ("=" + tail);
    IndexOfAnyConcat(k, "=" + tail, {'='});
    assert ("=" + tail)[0] == '=';
    assert IndexOfAny(s, {'='}) == |k|;
    SplitAtFirst(s, '=');
    assert s[..|k|] == k;
    assert s[|k| + 1..] == tail;
  }

  /** The first piece of `v` followed by nothing or by `=...` is v. */
  lemma {:induction false} ValueBeforeNextEquals(v: string, rest: string)
    requires '=' !in v
    requires rest == "" || rest[0] == '='
    ensures Split(v + rest, '=')[0] == v
  {
    if rest == "" {
      assert v + rest == v;
    } else {
      IndexOfAnyConcat(v, rest, {'='});
      assert IndexOfAny(rest, {'='}) == 0;
      SplitAtFirst(v + rest, '=');
      assert (v + rest)[..|v|] == v;
    }
  }

  /** No piece after piece i uses piece i's key. */
  predicate NoLaterKey(segments: seq<string>, i: nat)
    requires i < |segments|
  {
    forall j :: i < j < |segments| ==> SegmentKey(segments[j]) != SegmentKey(segments[i])
  }

  /** One step of the comprehension: the last piece is stored over the map
      built from the pieces before it. */
  lemma {:induction false} CollectLast(segments: seq<string>, m: Entry)
    requires |segments| > 0 && CollectPairs(segments) == Ok(m)
    ensures var last := |segments| - 1;
            CollectPairs(segments[..last]).Ok? && '=' in segments[last] &&
            m == CollectPairs(segments[..last]).value[SegmentKey(segments[last]) := SegmentValue(segments[last])]
  {
  }

  /** On success the map holds exactly the keys of the pieces. */
  lemma {:induction false} CollectedKeys(segments: seq<string>, m: Entry)
    requires CollectPairs(segments) == Ok(m)
    ensures forall k :: k in m <==> exists i :: 0 <= i < |segments| && SegmentKey(segments[i]) == k
    decreases |segments|
  {
    if |segments| > 0 {
      var last := |segments| - 1;
      var init := segments[..last];
      CollectLast(segments, m);
      var m' := CollectPairs(init).value;
      CollectedKeys(init, m');
      forall k | k in m ensures exists i :: 0 <= i < |segments| && SegmentKey(segments[i]) == k {
        if k != SegmentKey(segments[last]) {
          var i :| 0 <= i < |init| && SegmentKey(init[i]) == k;
          assert init[i] == segments[i];
        }
      }
      forall k | exists i :: 0 <= i < |segments| && SegmentKey(segments[i]) == k ensures k in m {
        var i :| 0 <= i < |segments| && SegmentKey(segments[i]) == k;
        if i < last {
          assert init[i] == segments[i];
        }
      }
    }
  }

  /** On success each key is bound to the value of the last piece that
      carries it: a later duplicate key wins. */
  lemma {:induction false} LastSegmentWins(segments: seq<string>, m: Entry)
    requires CollectPairs(segments) == Ok(m)
    ensures forall i :: 0 <= i < |segments| && NoLaterKey(segments, i) ==>
              SegmentKey(segments[i]) in m && m[SegmentKey(segments[i])] == SegmentValue(segments[i])
    decreases |segments|
  {
    if |segments| > 0 {
      var last := |segments| - 1;
      var init := segments[..last];
      CollectLast(segments, m);
      var m' := CollectPairs(init).value;
      LastSegmentWins(init, m');
      forall i | 0 <= i < |segments| && NoLaterKey(segments, i)
        ensures SegmentKey(segments[i]) in m && m[SegmentKey(segments[i])] == SegmentValue(segments[i])
      {
        if i < last {
          assert init[i] == segments[i];
          assert SegmentKey(segments[last]) != SegmentKey(segments[i]);
          forall j | i < j < |init| ensures SegmentKey(init[j]) != SegmentKey(init[i]) {
            assert init[j] == segments[j];
          }
          assert NoLaterKey(init, i);
        }
      }
    }
  }

  /** An empty decoded body, or one that starts or ends with `&` or holds
      `&&`, has an empty piece and so fails. */
  lemma {:induction false} BlankSegmentFails(body: string)
    requires var d := Decode(body);
             d == "" || d[0] == '&' || d[|d| - 1] == '&' ||
             exists i :: 0 <= i < |d| - 1 && d[i] == '&' && d[i + 1] == '&'
    ensures ParseForm(body).Err?
  {
    var parts := Split(Decode(body), '&');
    SplitHasEmptyPiece(Decode(body), '&');
    var i :| 0 <= i < |parts| && parts[i] == "";
    assert '=' !in parts[i];
  }

  /** The empty body raises at its one (empty) piece. */
  lemma {:induction false} EmptyBodyFails()
    ensures ParseForm("") == Err(IndexError(0))
  {
    assert Split(Decode(""), '&') == [""];
  }

  /** An escape of a character that is neither `%` nor `+` decodes like the
      character itself, whatever follows. */
  lemma {:induction false} EscapeDecodesAsLiteral(hi: char, lo: char, y: string)
    requires IsHexDigit(hi) && IsHexDigit(lo)
    requires var n := 16 * HexValue(hi) + HexValue(lo); n != '%' as int && n != '+' as int
    ensures Decode([ '%', hi, lo] + y) == Decode([(16 * HexValue(hi) + HexValue(lo)) as char] + y)
  {
    var c := (16 * HexValue(hi) + HexValue(lo)) as char;
    assert (['%', hi, lo] + y)[3..] == y;
    DecodeLiteral(c, y);
  }

  /** A text that does not start with a hex digit cannot complete an escape
      begun at the end of what precedes it. */
  predicate StartsOutsideEscape(z: string)
  {
    |z| == 0 || !IsHexDigit(z[0])
  }

  /** Decoding is piecewise at any cut where the right part does not start
      with a hex digit: no escape straddles the cut. */
  lemma {:induction false} DecodeConcat(x: string, z: string)
    requires StartsOutsideEscape(z)
    ensures Decode(x + z) == Decode(x) + Decode(z)
    decreases |x|, 1
  {
    if |x| == 0 {
      assert x + z == z;
    } else if x[0] == '%' && |x| >= 3 && IsHexDigit(x[1]) && IsHexDigit(x[2]) {
      DecodeConcatEscape(x, z);
    } else {
      DecodeConcatSingle(x, z);
    }
  }

  /** `DecodeConcat` when `x` starts with a complete escape. */
  lemma {:induction false} DecodeConcatEscape(x: string, z: string)
    requires StartsOutsideEscape(z)
    requires |x| >= 3 && x[0] == '%' && IsHexDigit(x[1]) && IsHexDigit(x[2])
    ensures Decode(x + z) == Decode(x) + Decode(z)
    decreases |x|, 0
  {
    var s := x + z;
    assert s[0] == '%' && s[1] == x[1] && s[2] == x[2];
    assert s[3..] == x[3..] + z;
    DecodeConcat(x[3..], z);
  }

  /** `DecodeConcat` when the first character of `x` decodes on its own. */
  lemma {:induction false} DecodeConcatSingle(x: string, z: string)
    requires StartsOutsideEscape(z)
    requires |x| >= 1 && !(x[0] == '%' && |x| >= 3 && IsHexDigit(x[1]) && IsHexDigit(x[2]))
    ensures Decode(x + z) == Decode(x) + Decode(z)
    decreases |x|, 0
  {
    var s := x + z;
    assert s[0] == x[0];
    if x[0] == '%' {
      EscapeNotCompletedAcrossCut(x, z);
    }
    assert s[1..] == x[1..] + z;
    DecodeConcat(x[1..], z);
  }

  /** A `%` of `x` that does not start an escape within `x` does not start
      one in `x + z` either. */
  lemma {:induction false} EscapeNotCompletedAcrossCut(x: string, z: string)
    requires StartsOutsideEscape(z) && |x| >= 1
    requires !(|x| >= 3 && IsHexDigit(x[1]) && IsHexDigit(x[2]))
    ensures var s := x + z; !(|s| >= 3 && IsHexDigit(s[1]) && IsHexDigit(s[2]))
  {
    var s := x + z;
    if |x| == 1 && |s| >= 3 {
      assert s[1] == z[0];
    } else if |x| == 2 && |s| >= 3 {
      assert s[1] == x[1] && s[2] == z[0];
    } else if |x| >= 3 {
      assert s[1] == x[1] && s[2] == x[2];
    }
  }

  /** Two tails that decode alike, neither starting with a hex digit, parse
      alike behind any prefix. */
  lemma {:induction false} ParseBehindPrefix(x: string, a: string, b: string)
    requires StartsOutsideEscape(a) && StartsOutsideEscape(b)
    requires Decode(a) == Decode(b)
    ensures ParseForm(x + a) == ParseForm(x + b)
  {
    DecodeConcat(x, a);
    DecodeConcat(x, b);
    assert Segments(x + a) == Segments(x + b);
  }

  /** An escape `%XX` anywhere in a body parses like the character with
      code XX, provided that character is neither `%`, `+` nor a hex digit. */
  lemma {:induction false} EscapeParsesAsLiteral(x: string, hi: char, lo: char, c: char, y: string)
    requires IsHexDigit(hi) && IsHexDigit(lo) && 16 * HexValue(hi) + HexValue(lo) == c as int
    requires c != '%' && c != '+' && !IsHexDigit(c)
    ensures ParseForm(x + ['%', hi, lo] + y) == ParseForm(x + [c] + y)
  {
    EscapeDecodesAsLiteral(hi, lo, y);
    ParseBehindPrefix(x, ['%', hi, lo] + y, [c] + y);
    assert x + ['%', hi, lo] + y == x + (['%', hi, lo] + y);
    assert x + [c] + y == x + ([c] + y);
  }

  /** Decoding comes before splitting: wherever it stands in the body,
      `%26` splits like a literal `&` and `%3D`/`%3d` like a literal `=`. */
  lemma {:induction false} EscapedSeparatorsSplit(x: string, y: string)
    ensures ParseForm(x + "%26" + y) == ParseForm(x + "&" + y)
    ensures ParseForm(x + "%3D" + y) == ParseForm(x + "=" + y)
    ensures ParseForm(x + "%3d" + y) == ParseForm(x + "=" + y)
  {
    EscapeParsesAsLiteral(x, '2', '6', '&', y);
    EscapeParsesAsLiteral(x, '3', 'D', '=', y);
    EscapeParsesAsLiteral(x, '3', 'd', '=', y);
  }

  /** `urlencode` of an ordered list of fields: every name and value
      encoded, written `name=value`, the pieces joined with `&`. */
  function EncodeForm(fields: seq<(string, string)>): (body: string)
  {
    if |fields| == 0 then "" else Join(EncodedPieces(fields), '&')
  }

  function EncodedPieces(fields: seq<(string, string)>): (pieces: seq<string>)
    ensures |pieces| == |fields|
  {
    seq(|fields|, i requires 0 <= i < |fields| => Encode(fields[i].0) + "=" + Encode(fields[i].1))
  }

  function PlainPieces(fields: seq<(string, string)>): (pieces: seq<string>)
    ensures |pieces| == |fields|
  {
    seq(|fields|, i requires 0 <= i < |fields| => fields[i].0 + "=" + fields[i].1)
  }

  /** The map a form decoder is meant to produce: Python's `dict(fields)`,
      where a later field overwrites an earlier one of the same name. */
  function Dict(fields: seq<(string, string)>): (m: Entry)
  {
    if |fields| == 0 then map[]
    else Dict(fields[..|fields| - 1])[fields[|fields| - 1].0 := fields[|fields| - 1].1]
  }

  /** A name or value that the decode-then-split order cannot tell apart from
      the separators around it. */
  predicate Plain(s: string)
  {
    '&' !in s && '=' !in s
  }

  lemma {:induction false} DecodePiece(k: string, v: string, t: string)
    ensures Decode(Encode(k) + "=" + Encode(v) + t) == k + "=" + v + Decode(t)
  {
    var tail := Encode(v) + t;
    var eq := ['='] + tail;
    assert Encode(k) + "=" + Encode(v) + t == Encode(k) + eq;
    assert Decode(Encode(k) + eq) == k + Decode(eq) by {
      DecodeEncode(k, eq);
    }
    assert Decode(eq) == ['='] + Decode(tail) by {
      DecodeLiteral('=', tail);
    }
    assert Decode(tail) == v + Decode(t) by {
      DecodeEncode(v, t);
    }
    assert k + (['='] + (v + Decode(t))) == k + "=" + v + Decode(t);
  }

  /** An encoded piece followed by `&` and more text decodes piecewise. */
  lemma {:induction false} DecodePieceThenMore(k: string, v: string, j: string)
    ensures Decode(Encode(k) + "=" + Encode(v) + (['&'] + j)) == k + "=" + v + (['&'] + Decode(j))
  {
    DecodePiece(k, v, ['&'] + j);
    DecodeLiteral('&', j);
  }

  /** The piece lists of a form are its first piece followed by those of the rest. */
  lemma {:induction false} PiecesCons(fields: seq<(string, string)>)
    requires |fields| >= 1
    ensures EncodedPieces(fields) == [Encode(fields[0].0) + "=" + Encode(fields[0].1)] + EncodedPieces(fields[1..])
    ensures PlainPieces(fields) == [fields[0].0 + "=" + fields[0].1] + PlainPieces(fields[1..])
  {
    EncodedPiecesCons(fields);
    PlainPiecesCons(fields);
  }

  lemma {:induction false} EncodedPiecesCons(fields: seq<(string, string)>)
    requires |fields| >= 1
    ensures EncodedPieces(fields) == [Encode(fields[0].0) + "=" + Encode(fields[0].1)] + EncodedPieces(fields[1..])
  {
    var e, r := EncodedPieces(fields), EncodedPieces(fields[1..]);
    forall i | 0 <= i < |r| ensures e[i + 1] == r[i] {
      var f := fields[i + 1];
      assert fields[1..][i] == f;
      assert r[i] == Encode(f.0) + "=" + Encode(f.1);
      assert e[i + 1] == Encode(f.0) + "=" + Encode(f.1);
    }
    assert e == [e[0]] + r;
  }

  lemma {:induction false} PlainPiecesCons(fields: seq<(string, string)>)
    requires |fields| >= 1
    ensures PlainPieces(fields) == [fields[0].0 + "=" + fields[0].1] + PlainPieces(fields[1..])
  {
    var p, r := PlainPieces(fields), PlainPieces(fields[1..]);
    forall i | 0 <= i < |r| ensures p[i + 1] == r[i] {
      assert fields[1..][i] == fields[i + 1];
    }
    assert p == [p[0]] + r;
  }

  /** Joining `[x] + rest` with `&` for a non-empty rest. */
  lemma {:induction false} JoinCons(x: string, rest: seq<string>)
    requires |rest| >= 1
    ensures Join([x] + rest, '&') == x + (['&'] + Join(rest, '&'))
  {
    assert ([x] + rest)[0] == x && ([x] + rest)[1..] == rest;
  }

  /** One encoded piece on its own decodes to the plain piece. */
  lemma {:induction false} DecodeSinglePiece(k: string, v: string)
    ensures Decode(Encode(k) + "=" + Encode(v)) == k + "=" + v
  {
    DecodePiece(k, v, "");
    assert Encode(k) + "=" + Encode(v) + "" == Encode(k) + "=" + Encode(v);
    assert k + "=" + v + Decode("") == k + "=" + v;
  }

  lemma {:induction false} DecodeJoined(fields: seq<(string, string)>)
    requires |fields| >= 1
    ensures Decode(Join(EncodedPieces(fields), '&')) == Join(PlainPieces(fields), '&')
    decreases |fields|
  {
    var k, v, rest := fields[0].0, fields[0].1, fields[1..];
    PiecesCons(fields);
    if |fields| == 1 {
      assert EncodedPieces(fields) == [Encode(k) + "=" + Encode(v)];
      assert PlainPieces(fields) == [k + "=" + v];
      DecodeSinglePiece(k, v);
    } else {
      DecodeJoined(rest);
      DecodeJoinStep(k, v, EncodedPieces(rest), PlainPieces(rest));
    }
  }

  /** Putting an encoded piece in front of a joined list whose decoding is
      known puts the plain piece in front of the decoding. */
  lemma {:induction false} DecodeJoinStep(k: string, v: string, es: seq<string>, ps: seq<string>)
    requires |es| >= 1 && |ps| >= 1
    requires Decode(Join(es, '&')) == Join(ps, '&')
    ensures Decode(Join([Encode(k) + "=" + Encode(v)] + es, '&')) == Join([k + "=" + v] + ps, '&')
  {
    JoinCons(Encode(k) + "=" + Encode(v), es);
    JoinCons(k + "=" + v, ps);
    DecodePieceThenMore(k, v, Join(es, '&'));
  }

  lemma {:induction false} CollectPlain(fields: seq<(string, string)>)
    requires forall i :: 0 <= i < |fields| ==> Plain(fields[i].0) && Plain(fields[i].1)
    ensures CollectPairs(PlainPieces(fields)) == Ok(Dict(fields))
  {
    if |fields| > 0 {
      var last := |fields| - 1;
      var p := PlainPieces(fields);
      assert p[..last] == PlainPieces(fields[..last]);
      CollectPlain(fields[..last]);
      PairOfSegment(fields[last].0, fields[last].1, "");
      assert p[last] == fields[last].0 + "=" + fields[last].1 + "";
    }
  }

  /** For forms whose names and values hold no `&` and no `=`, the parser
      inverts `urlencode`: it yields `dict(fields)`. */
  lemma {:induction false} FormRoundTrip(fields: seq<(string, string)>)
    requires |fields| >= 1
    requires forall i :: 0 <= i < |fields| ==> Plain(fields[i].0) && Plain(fields[i].1)
    ensures ParseForm(EncodeForm(fields)) == Ok(Dict(fields))
  {
    DecodeJoined(fields);
    var p := PlainPieces(fields);
    forall i | 0 <= i < |p| ensures '&' !in p[i] {
      assert p[i] == fields[i].0 + "=" + fields[i].1;
    }
    SplitJoin(p, '&');
    CollectPlain(fields);
  }

  /** The `urlencode` of a single field is its one encoded piece. */
  lemma {:induction false} EncodeFormSingle(k: string, v: string)
    ensures EncodeForm([(k, v)]) == Encode(k) + "=" + Encode(v)
  {
    assert EncodedPieces([(k, v)]) == [Encode(k) + "=" + Encode(v)];
  }

  lemma {:induction false} CollectOne(segment: string, k: string, v: string)
    requires SplitPair(segment) == Some((k, v))
    ensures CollectPairs([segment]) == Ok(map[k := v])
  {
    assert [segment][..0] == [];
  }

  lemma {:induction false} CollectTwo(s1: string, s2: string, k1: string, v1: string, k2: string, v2: string)
    requires SplitPair(s1) == Some((k1, v1)) && SplitPair(s2) == Some((k2, v2))
    ensures CollectPairs([s1, s2]) == Ok(map[k1 := v1][k2 := v2])
  {
    assert [s1, s2][..1] == [s1];
    CollectOne(s1, k1, v1);
  }

  /** The single piece of a one-field body whose name and value hold no `&`. */
  lemma {:induction false} SingleFieldSegments(k: string, v: string)
    requires '&' !in k && '&' !in v
    ensures Segments(EncodeForm([(k, v)])) == [k + "=" + v]
  {
    EncodeFormSingle(k, v);
    DecodeSinglePiece(k, v);
  }

  lemma {:induction false} SingleFieldParse(k: string, v: string, v1: string)
    requires '&' !in k && '&' !in v
    requires SplitPair(k + "=" + v) == Some((k, v1))
    ensures ParseForm(EncodeForm([(k, v)])) == Ok(map[k := v1])
  {
    SingleFieldSegments(k, v);
    CollectOne(k + "=" + v, k, v1);
  }

  /** A value holding `=` and no `&` is cut at its first `=` even though it
      was encoded, so the round trip fails for it. */
  lemma {:induction false} ValueWithEqualsIsCut(k: string, v1: string, v2: string)
    requires Plain(k) && Plain(v1) && '&' !in v2
    ensures ParseForm(EncodeForm([(k, v1 + "=" + v2)])) == Ok(map[k := v1])
    ensures ParseForm(EncodeForm([(k, v1 + "=" + v2)])) != Ok(Dict([(k, v1 + "=" + v2)]))
  {
    var v := v1 + "=" + v2;
    PairOfSegment(k, v1, "=" + v2);
    assert k + "=" + v1 + ("=" + v2) == k + "=" + v;
    SingleFieldParse(k, v, v1);
    assert [(k, v)][..0] == [];
    assert Dict([(k, v)]) == map[k := v];
    assert |v1| < |v|;
    assert map[k := v1][k] != map[k := v][k];
  }

  /** A value holding one `&` with no `=` after it splits the body into a
      piece without `=`, which raises at the second piece. */
  lemma {:induction false} ValueWithAmpersandFails(k: string, v1: string, v2: string)
    requires Plain(k) && Plain(v1) && Plain(v2)
    ensures ParseForm(EncodeForm([(k, v1 + "&" + v2)])) == Err(IndexError(1))
  {
    var body := EncodeForm([(k, v1 + "&" + v2)]);
    var segments := [k + "=" + v1, v2];
    EncodeFormSingle(k, v1 + "&" + v2);
    DecodeSinglePiece(k, v1 + "&" + v2);
    assert '&' !in segments[0];
    assert Join(segments, '&') == k + "=" + (v1 + "&" + v2);
    SplitJoin(segments, '&');
    assert Segments(body) == segments;
    assert segments[..1] == [segments[0]] && [segments[0]][..0] == [];
    PairOfSegment(k, v1, "");
    assert segments[0] + "" == segments[0];
  }

  /** A value holding one `&` followed by `name=value` is not rejected: it
      injects a second field (the value `a&name=M`, sent as
      `text=a%26name%3DM`, parses to `{"text": "a", "name": "M"}`). */
  lemma {:induction false} ValueWithAmpersandInjects(k: string, v1: string, k2: string, v2: string)
    requires Plain(k) && Plain(v1) && Plain(k2) && Plain(v2)
    ensures ParseForm(EncodeForm([(k, v1 + "&" + k2 + "=" + v2)])) == Ok(map[k := v1][k2 := v2])
  {
    var v := v1 + "&" + k2 + "=" + v2;
    var body := EncodeForm([(k, v)]);
    var segments := [k + "=" + v1, k2 + "=" + v2];
    EncodeFormSingle(k, v);
    DecodeSinglePiece(k, v);
    assert '&' !in segments[0] && '&' !in segments[1];
    assert Join(segments, '&') == k + "=" + v;
    SplitJoin(segments, '&');
    assert Segments(body) == segments;
    PairOfSegment(k, v1, "");
    PairOfSegment(k2, v2, "");
    assert segments[0] + "" == segments[0] && segments[1] + "" == segments[1];
    CollectTwo(segments[0], segments[1], k, v1, k2, v2);
  }

  lemma {:induction false} MessageSegments(name: string, text: string)
    requires Plain(name) && Plain(text)
    requires '%' !in name + text && '+' !in name + text
    ensures Segments("name=" + name + "&text=" + text) == ["name=" + name, "text=" + text]
  {
    var body := "name=" + name + "&text=" + text;
    var segments := ["name=" + name, "text=" + text];
    assert '%' !in name && '%' !in text && '+' !in name && '+' !in text;
    assert '%' !in body && '+' !in body;
    DecodePlainText(body);
    assert '&' !in segments[0] && '&' !in segments[1];
    assert Join(segments, '&') == body;
    SplitJoin(segments, '&');
  }

  /** A message-form submission `name=...&text=...` whose fields need no
      escaping parses to its two fields (for instance
      `name=Alice&text=Hello`). */
  lemma {:induction false} MessageSubmission(name: string, text: string)
    requires Plain(name) && Plain(text)
    requires '%' !in name + text && '+' !in name + text
    ensures ParseForm("name=" + name + "&text=" + text) == Ok(map["name" := name, "text" := text])
  {
    MessageSegments(name, text);
    PairOfSegment("name", name, "");
    PairOfSegment("text", text, "");
    assert "name" + "=" + name + "" == "name=" + name;
    assert "text" + "=" + text + "" == "text=" + text;
    CollectTwo("name=" + name, "text=" + text, "name", name, "text", text);
  }
}
