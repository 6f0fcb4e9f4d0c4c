/** The parts of JavaScript's string library that the backup script relies
    on: `trim()`, `split` with a string separator, `split(/\s+/)` and
    `join`, all on strings as sequences of characters. */
module JsString {

  /** A character that `\s` matches and `trim()` removes: the ECMAScript
      WhiteSpace and LineTerminator code points. */
  predicate IsSpace(c: char) {
    || c == ' ' || c == '\t' || c == '\n' || c == '\r'
    || c == '\U{000B}' || c == '\U{000C}' || c == '\U{00A0}' || c == '\U{1680}'
    || ('\U{2000}' <= c <= '\U{200A}')
    || c == '\U{2028}' || c == '\U{2029}' || c == '\U{202F}' || c == '\U{205F}'
    || c == '\U{3000}' || c == '\U{FEFF}'
  }

  /** True when no character of `s` is white space. */
  predicate NoSpace(s: string) {
    forall i :: 0 <= i < |s| ==> !IsSpace(s[i])
  }

  /** `s` without its leading white space. */
  function TrimStart(s: string): (r: string)
    ensures |r| <= |s| && r == s[|s| - |r|..]
    ensures r == [] || !IsSpace(r[0])
    ensures forall i :: 0 <= i < |s| - |r| ==> IsSpace(s[i])
  {
    if |s| > 0 && IsSpace(s[0]) then TrimStart(s[1..]) else s
  }

  /** `s` without its trailing white space. */
  function TrimEnd(s: string): (r: string)
    ensures |r| <= |s| && r == s[..|r|]
    ensures r == [] || !IsSpace(r[|r| - 1])
    ensures forall i :: |r| <= i < |s| ==> IsSpace(s[i])
  {
    if |s| > 0 && IsSpace(s[|s| - 1]) then TrimEnd(s[..|s| - 1]) else s
  }

  /** `s.trim()`: the longest middle part of `s` that neither starts nor
      ends with white space; only white space is cut away on either side. */
  function Trim(s: string): (r: string)
    ensures r == [] || (!IsSpace(r[0]) && !IsSpace(r[|r| - 1]))
    ensures forall c :: c in r ==> c in s
    ensures NoSpace(s) ==> r == s
  {
    TrimEnd(TrimStart(s))
  }

  /** True when every character of `s` is white space. */
  predicate AllSpace(s: string) {
    forall i :: 0 <= i < |s| ==> IsSpace(s[i])
  }

  /** What `TrimStart` cuts away is white space. */
  lemma {:induction false} TrimStartCut(s: string)
    ensures AllSpace(s[..|s| - |TrimStart(s)|])
  {
    var head := s[..|s| - |TrimStart(s)|];
    assert forall k :: 0 <= k < |head| ==> head[k] == s[k];
  }

  /** What `TrimEnd` cuts away is white space. */
  lemma {:induction false} TrimEndCut(t: string)
    ensures AllSpace(t[|TrimEnd(t)|..])
  {
    var tail := t[|TrimEnd(t)|..];
    assert forall k :: 0 <= k < |tail| ==> tail[k] == t[|TrimEnd(t)| + k];
  }

  /** `r` is the slice of `s` that starts at `i`, with nothing but white
      space before and after it. */
  predicate Middle(s: string, r: string, i: nat) {
    && i + |r| <= |s|
    && r == s[i..i + |r|]
    && AllSpace(s[..i])
    && AllSpace(s[i + |r|..])
  }

  /** Cutting white space off the front of `s`, giving `t`, and then off
      the back of `t`, giving `r`, leaves `r` as a middle of `s`. */
  lemma {:induction false} CutEnds(s: string, t: string, r: string)
    requires |t| <= |s| && t == s[|s| - |t|..] && AllSpace(s[..|s| - |t|])
    requires |r| <= |t| && r == t[..|r|] && AllSpace(t[|r|..])
    ensures Middle(s, r, |s| - |t|)
  {
    assert s[|s| - |t| + |r|..] == t[|r|..];
  }

  /** `trim()` cuts white space from the two ends only: the result is the
      slice of the input that starts after the leading white space, and
      nothing but white space lies before and after it, so the middle,
      white space included, is kept. */
  lemma {:induction false} TrimKeepsMiddle(s: string)
    ensures Middle(s, Trim(s), |s| - |TrimStart(s)|)
  {
    var t := TrimStart(s);
    TrimStartCut(s);
    TrimEndCut(t);
    CutEnds(s, t, TrimEnd(t));
  }

  /** Trimming twice is trimming once. */
  lemma {:induction false} TrimIdempotent(s: string)
    ensures Trim(Trim(s)) == Trim(s)
  {
    var r := Trim(s);
    assert TrimStart(r) == r;
  }

  /** `s.split(sep)` for a non-empty separator: the pieces between the
      occurrences of `sep`, found from left to right without overlap.
      There is always at least one piece; `"".split(sep)` is `[""]`. */
  function SplitOn(s: string, sep: string): (r: seq<string>)
    requires |sep| > 0
    ensures |r| >= 1
    decreases |s|
  {
    if |s| == 0 then [""]
    else if sep <= s then [""] + SplitOn(s[|sep|..], sep)
    else
      var rest := SplitOn(s[1..], sep);
      [[s[0]] + rest[0]] + rest[1..]
  }

  /** True when `sep` occurs in `s` at none of the first `n` positions. */
  predicate NoMatchBefore(s: string, sep: string, n: nat) {
    forall k :: 0 <= k < n && k <= |s| ==> !(sep <= s[k..])
  }

  /** A text in which the separator never occurs splits into itself
      alone. */
  lemma {:induction false} SplitOnNone(s: string, sep: string)
    requires |sep| > 0 && NoMatchBefore(s, sep, |s|)
    ensures SplitOn(s, sep) == [s]
    decreases |s|
  {
    if |s| > 0 {
      assert !(sep <= s[0..]) && s[0..] == s;
      assert NoMatchBefore(s[1..], sep, |s[1..]|) by {
        forall k | 0 <= k < |s[1..]| ensures !(sep <= s[1..][k..]) {
          assert s[1..][k..] == s[k + 1..];
        }
      }
      SplitOnNone(s[1..], sep);
      assert [s[0]] + s[1..] == s;
    }
  }

  /** The separator cuts at its leftmost occurrence: a piece in which it
      does not start, then the separator, is cut off whole as the first
      piece, whatever the separator's length. */
  lemma {:induction false} SplitOnFirst(p: string, sep: string, rest: string)
    requires |sep| > 0 && NoMatchBefore(p + sep, sep, |p|)
    ensures SplitOn(p + sep + rest, sep) == [p] + SplitOn(rest, sep)
    decreases |p|
  {
    var s := p + sep + rest;
    if |p| == 0 {
      assert s == sep + rest;
      assert s[|sep|..] == rest;
    } else {
      assert !(sep <= s) by {
        assert !(sep <= (p + sep)[0..]) && (p + sep)[0..] == p + sep;
        assert s[..|sep|] == (p + sep)[..|sep|];
      }
      assert NoMatchBefore(p[1..] + sep, sep, |p[1..]|) by {
        forall k | 0 <= k < |p[1..]| ensures !(sep <= (p[1..] + sep)[k..]) {
          assert (p[1..] + sep)[k..] == (p + sep)[k + 1..];
        }
      }
      assert s[1..] == p[1..] + sep + rest;
      SplitOnFirst(p[1..], sep, rest);
      assert [p[0]] + p[1..] == p;
    }
  }

  /** `pieces.join(sep)`. */
  function Join(pieces: seq<string>, sep: string): (r: string)
  {
    if |pieces| == 0 then ""
    else if |pieces| == 1 then pieces[0]
    else pieces[0] + sep + Join(pieces[1..], sep)
  }

  /** Joining keeps the first piece whole in front of the separator. */
  lemma {:induction false} JoinCons(a: string, r: seq<string>, sep: string)
    requires |r| >= 1
    ensures Join([a] + r, sep) == a + sep + Join(r, sep)
  {
    assert ([a] + r)[1..] == r;
  }

  /** A character put in front of the first piece comes first in the
      joined text. */
  lemma {:induction false} JoinHead(c: char, r: seq<string>, sep: string)
    requires |r| >= 1
    ensures Join([[c] + r[0]] + r[1..], sep) == [c] + Join(r, sep)
  {
    if |r| > 1 {
      JoinCons([c] + r[0], r[1..], sep);
      JoinCons(r[0], r[1..], sep);
      assert r == [r[0]] + r[1..];
    } else {
      assert [[c] + r[0]] + r[1..] == [[c] + r[0]];
    }
  }

  /** Splitting loses nothing: joining the pieces with the separator gives
      back the text. */
  lemma {:induction false} JoinSplitOn(s: string, sep: string)
    requires |sep| > 0
    ensures Join(SplitOn(s, sep), sep) == s
    decreases |s|
  {
    if |s| == 0 {
    } else if sep <= s {
      var rest := SplitOn(s[|sep|..], sep);
      assert SplitOn(s, sep) == [""] + rest;
      JoinSplitOn(s[|sep|..], sep);
      JoinCons("", rest, sep);
      assert Join([""] + rest, sep) == sep + s[|sep|..];
      assert s == sep + s[|sep|..];
    } else {
      var rest := SplitOn(s[1..], sep);
      assert SplitOn(s, sep) == [[s[0]] + rest[0]] + rest[1..];
      JoinSplitOn(s[1..], sep);
      JoinHead(s[0], rest, sep);
      assert Join([[s[0]] + rest[0]] + rest[1..], sep) == [s[0]] + s[1..];
      assert s == [s[0]] + s[1..];
    }
  }

  /** Every character of a piece comes from the text. */
  lemma {:induction false} SplitOnChars(s: string, sep: string)
    requires |sep| > 0
    ensures forall p, c :: p in SplitOn(s, sep) && c in p ==> c in s
    decreases |s|
  {
    if |s| == 0 {
    } else if sep <= s {
      SplitOnChars(s[|sep|..], sep);
      assert forall c :: c in s[|sep|..] ==> c in s;
    } else {
      SplitOnChars(s[1..], sep);
      var rest := SplitOn(s[1..], sep);
      assert rest[0] in rest;
      assert forall p :: p in rest[1..] ==> p in rest;
      assert forall c :: c in s[1..] ==> c in s;
    }
  }

  /** A piece cut at a one-character separator does not contain it. */
  lemma {:induction false} SplitOnCharPieces(s: string, c: char)
    ensures forall p :: p in SplitOn(s, [c]) ==> c !in p
    decreases |s|
  {
    if |s| == 0 {
    } else if [c] <= s {
      SplitOnCharPieces(s[1..], c);
    } else {
      SplitOnCharPieces(s[1..], c);
      var rest := SplitOn(s[1..], [c]);
      assert rest[0] in rest;
      assert forall p :: p in rest[1..] ==> p in rest;
    }
  }

  /** A text without the separator is a single piece. */
  lemma {:induction false} SplitOnNoChar(s: string, c: char)
    requires c !in s
    ensures SplitOn(s, [c]) == [s]
    decreases |s|
  {
    if |s| > 0 {
      assert s[0] != c;
      SplitOnNoChar(s[1..], c);
      assert s == [s[0]] + s[1..];
    }
  }

  /** A piece free of the separator, then the separator, is cut off
      whole as the first piece. */
  lemma {:induction false} SplitOnCharPrefix(p: string, c: char, rest: string)
    requires c !in p
    ensures SplitOn(p + [c] + rest, [c]) == [p] + SplitOn(rest, [c])
    decreases |p|
  {
    var s := p + [c] + rest;
    if |p| == 0 {
      assert s == [c] + rest;
      assert s[1..] == rest;
    } else {
      assert s[0] == p[0] && p[0] != c;
      assert s[1..] == p[1..] + [c] + rest;
      SplitOnCharPrefix(p[1..], c, rest);
      assert [p[0]] + p[1..] == p;
    }
  }

  /** Joining pieces that do not contain a one-character separator and
      splitting again gives back the pieces. */
  lemma {:induction false} SplitOnJoin(pieces: seq<string>, c: char)
    requires |pieces| >= 1
    requires forall p :: p in pieces ==> c !in p
    ensures SplitOn(Join(pieces, [c]), [c]) == pieces
    decreases |pieces|
  {
    if |pieces| == 1 {
      SplitOnNoChar(pieces[0], c);
    } else {
      assert forall p :: p in pieces[1..] ==> p in pieces;
      SplitOnJoin(pieces[1..], c);
      SplitOnCharPrefix(pieces[0], c, Join(pieces[1..], [c]));
      assert pieces == [pieces[0]] + pieces[1..];
    }
  }

  /** `s.split(/\s+/)`: the pieces between maximal runs of white space.
      Leading white space gives an empty first piece, trailing white space
      an empty last piece, and `""` gives `[""]`; no piece holds white
      space. */
  function SplitWs(s: string): (r: seq<string>)
    ensures |r| >= 1
    ensures forall i :: 0 <= i < |r| ==> NoSpace(r[i])
    decreases |s|
  {
    if |s| == 0 then [""]
    else if IsSpace(s[0]) then [""] + SplitWs(TrimStart(s[1..]))
    else
      var rest := SplitWs(s[1..]);
      [[s[0]] + rest[0]] + rest[1..]
  }

  /** A word followed by a run of white space is cut off whole as the first
      piece, and the run disappears. */
  lemma {:induction false} SplitWsPrefix(w: string, s: string)
    requires NoSpace(w)
    requires |s| > 0 && IsSpace(s[0])
    ensures SplitWs(w + s) == [w] + SplitWs(TrimStart(s))
    decreases |w|
  {
    if |w| == 0 {
      assert w + s == s;
      assert TrimStart(s[1..]) == TrimStart(s);
    } else {
      var t := w + s;
      assert t[1..] == w[1..] + s;
      SplitWsPrefix(w[1..], s);
      assert [w[0]] + w[1..] == w;
    }
  }

  /** Two words, each followed by white space, are the first two
      pieces. */
  lemma {:induction false} SplitWsTwoWords(w1: string, w2: string, c1: char, c2: char, rest: string)
    requires NoSpace(w1) && NoSpace(w2) && |w2| > 0
    requires IsSpace(c1) && IsSpace(c2)
    ensures |SplitWs(w1 + [c1] + w2 + [c2] + rest)| >= 2
    ensures SplitWs(w1 + [c1] + w2 + [c2] + rest)[..2] == [w1, w2]
  {
    var tail := [c2] + rest;
    var after := [c1] + w2 + tail;
    assert w1 + [c1] + w2 + [c2] + rest == w1 + after;
    assert TrimStart(after) == w2 + tail by {
      assert after[1..] == w2 + tail;
      assert !IsSpace(w2[0]);
      assert TrimStart(w2 + tail) == w2 + tail;
    }
    assert SplitWs(w1 + after) == [w1] + SplitWs(w2 + tail) by {
      SplitWsPrefix(w1, after);
    }
    assert SplitWs(w2 + tail) == [w2] + SplitWs(TrimStart(tail)) by {
      SplitWsPrefix(w2, tail);
    }
  }

  /** A single word is a single piece. */
  lemma {:induction false} SplitWsWord(w: string)
    requires NoSpace(w)
    ensures SplitWs(w) == [w]
    decreases |w|
  {
    if |w| > 0 {
      SplitWsWord(w[1..]);
      assert [w[0]] + w[1..] == w;
    }
  }

  /** Text made only of white space splits into empty pieces only. */
  lemma {:induction false} SplitWsBlank(s: string)
    requires forall i :: 0 <= i < |s| ==> IsSpace(s[i])
    ensures SplitWs(s) == if |s| == 0 then [""] else ["", ""]
  {
    if |s| > 0 {
      assert TrimStart(s[1..]) == [];
    }
  }
}
