/**
 * The JavaScript string built-ins that the modelled code relies on: `trim`,
 * the white-space class `\s` of regular expressions, `replace` with a string
 * pattern, `Array.prototype.join` and the decimal rendering of a non-negative
 * integer in a template literal, together with the search for the first
 * occurrence of a pattern (`IndexOf`) by which `replace` and the code-fence
 * match are modelled. A `char` here stands for one UTF-16 code unit, as
 * `length` and `slice` count them.
 */
module JsStrings {
  import opened Wrappers

  /** WhiteSpace and LineTerminator of ECMAScript: the set matched by `\s` and removed by `trim`. */
  predicate IsSpace(c: char) {
    || c == ' ' || c == '\t' || c == '\n' || c == '\r' || c == '\U{B}' || c == '\U{C}'
    || c == '\U{A0}' || c == '\U{1680}' || ('\U{2000}' <= c <= '\U{200A}')
    || c == '\U{2028}' || c == '\U{2029}' || c == '\U{202F}' || c == '\U{205F}'
    || c == '\U{3000}' || c == '\U{FEFF}'
  }

  predicate AllSpace(s: string) {
    forall i :: 0 <= i < |s| ==> IsSpace(s[i])
  }

  /** `s.trimStart()`: the suffix of `s` left after its leading white space. */
  function TrimStart(s: string): (r: string)
    ensures |r| <= |s| && r == s[|s| - |r|..]
    ensures AllSpace(s[..|s| - |r|])
    ensures r == [] || !IsSpace(r[0])
  {
    if s != [] && IsSpace(s[0]) then TrimStart(s[1..]) else s
  }

  /** `s.trimEnd()`: the prefix of `s` left before its trailing white space. */
  function TrimEnd(s: string): (r: string)
    ensures |r| <= |s| && r == s[..|r|]
    ensures AllSpace(s[|r|..])
    ensures r == [] || !IsSpace(r[|r| - 1])
  {
    if s != [] && IsSpace(s[|s| - 1]) then TrimEnd(s[..|s| - 1]) else s
  }

  /** `r` sits in `s` at offset `a` with only white space before and after it. */
  predicate PaddedAt(s: string, a: nat, r: string) {
    && a + |r| <= |s|
    && r == s[a..a + |r|]
    && AllSpace(s[..a])
    && AllSpace(s[a + |r|..])
  }

  /** `s.trim()`. */
  function Trim(s: string): (r: string)
    ensures |r| <= |s|
    ensures exists a: nat | a <= |s| :: PaddedAt(s, a, r)
    ensures r == [] || (!IsSpace(r[0]) && !IsSpace(r[|r| - 1]))
  {
    var t := TrimStart(s);
    var r := TrimEnd(t);
    PaddedPiece(s, |s| - |t|, t, r);
    r
  }

  /** A prefix of a suffix, each cut off by white space, is padded by white space in the whole. */
  lemma PaddedPiece(s: string, a: nat, t: string, r: string)
    requires a <= |s| && t == s[a..] && AllSpace(s[..a])
    requires |r| <= |t| && r == t[..|r|] && AllSpace(t[|r|..])
    ensures PaddedAt(s, a, r)
  {
    assert s[a + |r|..] == t[|r|..];
  }

  lemma {:induction false} TrimStartOfSpaces(ws: string, t: string)
    requires AllSpace(ws)
    requires t == [] || !IsSpace(t[0])
    ensures TrimStart(ws + t) == t
  {
    if ws != [] {
      assert (ws + t)[1..] == ws[1..] + t;
      TrimStartOfSpaces(ws[1..], t);
    } else {
      assert ws + t == t;
    }
  }

  lemma {:induction false} TrimEndOfSpaces(t: string, ws: string)
    requires AllSpace(ws)
    requires t == [] || !IsSpace(t[|t| - 1])
    ensures TrimEnd(t + ws) == t
  {
    if ws != [] {
      assert (t + ws)[..|t + ws| - 1] == t + ws[..|ws| - 1];
      TrimEndOfSpaces(t, ws[..|ws| - 1]);
    } else {
      assert t + ws == t;
    }
  }

  /** Leading white space makes no difference to `trimStart`. */
  lemma {:induction false} TrimStartSkipsSpace(ws: string, t: string)
    requires AllSpace(ws)
    ensures TrimStart(ws + t) == TrimStart(t)
  {
    if ws != [] {
      assert (ws + t)[1..] == ws[1..] + t;
      TrimStartSkipsSpace(ws[1..], t);
    } else {
      assert ws + t == t;
    }
  }

  /** `trimStart` stops at the first character that is not white space, wherever it comes from. */
  lemma {:induction false} TrimStartAppend(s: string, t: string)
    requires t != [] && !IsSpace(t[0])
    ensures TrimStart(s + t) == TrimStart(s) + t
  {
    if s != [] {
      assert (s + t)[0] == s[0];
      if IsSpace(s[0]) {
        assert (s + t)[1..] == s[1..] + t;
        TrimStartAppend(s[1..], t);
      }
    } else {
      assert s + t == t;
    }
  }

  /** Trimming removes exactly the white space around a text that has none at either end. */
  lemma TrimOfPadded(ws1: string, t: string, ws2: string)
    requires AllSpace(ws1) && AllSpace(ws2)
    requires t == [] || (!IsSpace(t[0]) && !IsSpace(t[|t| - 1]))
    ensures Trim(ws1 + t + ws2) == t
  {
    if t == [] {
      assert ws1 + t + ws2 == ws1 + ws2;
      assert AllSpace(ws1 + ws2);
      TrimStartOfSpaces(ws1 + ws2, []);
      assert ws1 + ws2 + [] == ws1 + ws2;
    } else {
      assert ws1 + t + ws2 == ws1 + (t + ws2);
      TrimStartOfSpaces(ws1, t + ws2);
      TrimEndOfSpaces(t, ws2);
    }
  }

  /** `pat` occurs in `s` starting at index `i`. */
  predicate OccursAt(s: string, pat: string, i: nat) {
    i + |pat| <= |s| && s[i..i + |pat|] == pat
  }

  predicate Contains(s: string, pat: string) {
    exists i: nat | i <= |s| :: OccursAt(s, pat, i)
  }

  /** The first occurrence of `pat` in `s` at or after `from`, if any (what `s.indexOf(pat, from)` returns). */
  function IndexOf(s: string, pat: string, from: nat): (r: Option<nat>)
    ensures r.Some? ==> from <= r.value && OccursAt(s, pat, r.value)
    ensures r.Some? ==> forall k: nat :: from <= k < r.value ==> !OccursAt(s, pat, k)
    ensures r.None? ==> forall k: nat :: from <= k ==> !OccursAt(s, pat, k)
    decreases |s| - from
  {
    if from + |pat| > |s| then None
    else if OccursAt(s, pat, from) then Some(from)
    else IndexOf(s, pat, from + 1)
  }

  /** An occurrence with none before it is the one `indexOf` finds. */
  lemma IndexOfFirst(s: string, pat: string, i: nat)
    requires OccursAt(s, pat, i)
    requires forall k: nat :: k < i ==> !OccursAt(s, pat, k)
    ensures IndexOf(s, pat, 0) == Some(i)
  {
    match IndexOf(s, pat, 0)
    case None =>
    case Some(j) =>
      assert !(j < i) && !(i < j);
  }

  /** `s.replace(pat, rep)` for a string pattern: only the first occurrence is replaced. */
  function ReplaceFirst(s: string, pat: string, rep: string): (r: string)
    ensures !Contains(s, pat) ==> r == s
    ensures Contains(s, pat) ==>
              exists i: nat :: && OccursAt(s, pat, i)
                               && (forall k: nat :: k < i ==> !OccursAt(s, pat, k))
                               && r == s[..i] + rep + s[i + |pat|..]
  {
    match IndexOf(s, pat, 0)
    case None => s
    case Some(i) => s[..i] + rep + s[i + |pat|..]
  }

  /** Removing `.pdf` from a name that ends in it, and has it nowhere else, gives the stem back. */
  lemma ReplaceFirstDropsSuffix(stem: string)
    requires !Contains(stem, ".pdf")
    ensures ReplaceFirst(stem + ".pdf", ".pdf", "") == stem
  {
    var s := stem + ".pdf";
    assert OccursAt(s, ".pdf", |stem|);
    forall k: nat | k < |stem| ensures !OccursAt(s, ".pdf", k) {
      // An occurrence straddling the end of `stem` is impossible because ".pdf" has no border.
      if k + 4 <= |stem| {
        assert !OccursAt(stem, ".pdf", k);
        assert stem[k..k + 4] == s[k..k + 4];
      } else if k + 4 <= |s| {
        var d := |stem| - k;
        assert 1 <= d <= 3 && ".pdf"[d] != '.';
        assert s[k..k + 4][d] == s[|stem|] == '.';
      }
    }
    assert IndexOf(s, ".pdf", 0) == Some(|stem|);
    assert s[..|stem|] == stem;
  }

  /** `parts.join(sep)`. */
  function Join(parts: seq<string>, sep: string): (r: string)
    ensures |r| == TotalLength(parts) + (if parts == [] then 0 else |sep| * (|parts| - 1))
  {
    if parts == [] then ""
    else if |parts| == 1 then parts[0]
    else Join(parts[..|parts| - 1], sep) + sep + parts[|parts| - 1]
  }

  /** Joining two non-empty runs of parts puts one separator between their joins. */
  lemma {:induction false} JoinAppend(a: seq<string>, b: seq<string>, sep: string)
    requires a != [] && b != []
    ensures Join(a + b, sep) == Join(a, sep) + sep + Join(b, sep)
    decreases |b|
  {
    var ab := a + b;
    if |b| == 1 {
      assert ab[..|ab| - 1] == a;
      assert ab[|ab| - 1] == b[0];
    } else {
      var b', last := b[..|b| - 1], b[|b| - 1];
      assert ab[..|ab| - 1] == a + b';
      assert ab[|ab| - 1] == last;
      JoinAppend(a, b', sep);
      calc {
        Join(ab, sep);
        Join(a + b', sep) + sep + last;
        Join(a, sep) + sep + Join(b', sep) + sep + last;
        Join(a, sep) + sep + (Join(b', sep) + sep + last);
        Join(a, sep) + sep + Join(b, sep);
      }
    }
  }

  /** The parts, in order, with `sep` between each pair: the reading of `join` from the front. */
  lemma JoinFront(parts: seq<string>, sep: string)
    requires |parts| >= 2
    ensures Join(parts, sep) == parts[0] + sep + Join(parts[1..], sep)
  {
    assert parts == [parts[0]] + parts[1..];
    JoinAppend([parts[0]], parts[1..], sep);
  }

  function TotalLength(parts: seq<string>): nat {
    if parts == [] then 0 else TotalLength(parts[..|parts| - 1]) + |parts[|parts| - 1]|
  }

  function DigitChar(d: nat): char
    requires d < 10
  {
    "0123456789"[d]
  }

  /** The decimal digits of `n`, as a template literal renders a non-negative integer. */
  function NatToString(n: nat): (r: string)
    ensures r != []
    ensures forall i :: 0 <= i < |r| ==> '0' <= r[i] <= '9'
    ensures r[0] == '0' ==> n == 0
  {
    if n < 10 then [DigitChar(n)] else NatToString(n / 10) + [DigitChar(n % 10)]
  }

  /** The value of a string of decimal digits: the reference reading of `NatToString`. */
  function DecimalValue(s: string): nat
    requires forall i :: 0 <= i < |s| ==> '0' <= s[i] <= '9'
  {
    if s == [] then 0 else 10 * DecimalValue(s[..|s| - 1]) + (s[|s| - 1] as int - '0' as int)
  }

  lemma {:induction false} NatToStringRoundTrip(n: nat)
    ensures DecimalValue(NatToString(n)) == n
  {
    var r := NatToString(n);
    if n >= 10 {
      NatToStringRoundTrip(n / 10);
      assert r[..|r| - 1] == NatToString(n / 10);
    }
  }
}
