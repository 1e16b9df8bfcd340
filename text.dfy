/**
 * The PHP string primitives the translator relies on, written out:
 * `str_replace("\r\n", "\n", s)`, `explode(',', s)`, `trim(s)` and PHP's truthiness of a string.
 */
module Text {

  /** `str_replace("\r\n", "\n", s)`: one left-to-right pass that replaces
      every CRLF pair by a single LF. */
  function NormalizeNewlines(s: string): string
  {
    if |s| < 2 then s
    else if s[0] == '\r' && s[1] == '\n' then "\n" + NormalizeNewlines(s[2..])
    else [s[0]] + NormalizeNewlines(s[1..])
  }

  /** Does `s` contain a CR immediately followed by an LF? */
  predicate HasCrlf(s: string)
  {
    exists i :: 0 <= i < |s| - 1 && s[i] == '\r' && s[i + 1] == '\n'
  }

  /** The number of positions where a CRLF pair starts (an independent count:
      it advances one character at a time). */
  function CrlfCount(s: string): nat
  {
    if |s| < 2 then 0
    else (if s[0] == '\r' && s[1] == '\n' then 1 else 0) + CrlfCount(s[1..])
  }

  lemma {:induction false} CrlfCountZero(s: string)
    ensures CrlfCount(s) == 0 <==> !HasCrlf(s)
  {
    if |s| >= 2 {
      CrlfCountZero(s[1..]);
      if HasCrlf(s) && !(s[0] == '\r' && s[1] == '\n') {
        var i :| 0 <= i < |s| - 1 && s[i] == '\r' && s[i + 1] == '\n';
        assert s[1..][i - 1] == '\r' && s[1..][i] == '\n';
      }
      if HasCrlf(s[1..]) {
        var i :| 0 <= i < |s[1..]| - 1 && s[1..][i] == '\r' && s[1..][i + 1] == '\n';
        assert s[i + 1] == '\r' && s[i + 2] == '\n';
      }
    }
  }

  /** Each replacement shortens the string by exactly one character. */
  lemma {:induction false} NormalizeLength(s: string)
    ensures |NormalizeNewlines(s)| == |s| - CrlfCount(s)
  {
    if |s| >= 2 {
      if s[0] == '\r' && s[1] == '\n' {
        NormalizeLength(s[2..]);
        assert s[1..][1..] == s[2..];
        assert CrlfCount(s[1..]) == CrlfCount(s[2..]);
      } else {
        NormalizeLength(s[1..]);
      }
    }
  }

  /** The replacement changes `s` exactly when `s` contains a CRLF pair. */
  lemma NormalizeIdentity(s: string)
    ensures NormalizeNewlines(s) == s <==> !HasCrlf(s)
  {
    NormalizeLength(s);
    CrlfCountZero(s);
    if !HasCrlf(s) {
      NormalizeUnchanged(s);
    }
  }

  lemma {:induction false} NormalizeUnchanged(s: string)
    requires !HasCrlf(s)
    ensures NormalizeNewlines(s) == s
  {
    if |s| >= 2 {
      assert !(s[0] == '\r' && s[1] == '\n');
      NormalizeUnchanged(s[1..]);
    }
  }

  /** The replacement introduces no character that `s` does not hold. */
  lemma {:induction false} NormalizeKeepsChars(s: string, c: char)
    ensures c in NormalizeNewlines(s) ==> c in s
  {
    if |s| >= 2 {
      if s[0] == '\r' && s[1] == '\n' {
        NormalizeKeepsChars(s[2..], c);
        assert c in s[2..] ==> c in s;
      } else {
        NormalizeKeepsChars(s[1..], c);
        assert c in s[1..] ==> c in s;
      }
    }
  }

  /** A single pass is not a fixpoint: "\r\r\n" becomes "\r\n". */
  lemma NormalizeSinglePass()
    ensures NormalizeNewlines("\r\r\n") == "\r\n"
    ensures HasCrlf(NormalizeNewlines("\r\r\n"))
  {
    assert NormalizeNewlines("\r\r\n")[0] == '\r' && NormalizeNewlines("\r\r\n")[1] == '\n';
  }

  /** `explode(sep, s)`: the pieces of `s` between occurrences of `sep`;
      always at least one piece. */
  function Split(s: string, sep: char): (parts: seq<string>)
    ensures |parts| >= 1
    ensures forall i :: 0 <= i < |parts| ==> sep !in parts[i]
  {
    if |s| == 0 then [""]
    else
      var rest := Split(s[1..], sep);
      if s[0] == sep then [""] + rest
      else [[s[0]] + rest[0]] + rest[1..]
  }

  /** `implode(sep, parts)`, the inverse of `Split`. */
  function Join(parts: seq<string>, sep: char): string
    requires |parts| >= 1
  {
    if |parts| == 1 then parts[0] else parts[0] + [sep] + Join(parts[1..], sep)
  }

  lemma {:induction false} JoinSplit(s: string, sep: char)
    ensures Join(Split(s, sep), sep) == s
  {
    if |s| > 0 {
      JoinSplit(s[1..], sep);
      var rest := Split(s[1..], sep);
      if s[0] != sep {
        var parts := [[s[0]] + rest[0]] + rest[1..];
        assert parts[1..] == rest[1..];
        if |rest| > 1 {
          assert Join(rest, sep) == rest[0] + [sep] + Join(rest[1..], sep);
        }
      } else {
        assert ([""] + rest)[1..] == rest;
      }
    }
  }

  lemma {:induction false} SplitJoin(parts: seq<string>, sep: char)
    requires |parts| >= 1
    requires forall i :: 0 <= i < |parts| ==> sep !in parts[i]
    ensures Split(Join(parts, sep), sep) == parts
  {
    if |parts| == 1 {
      SplitFree(parts[0], sep);
    } else {
      SplitJoin(parts[1..], sep);
      SplitPrefix(parts[0], Join(parts[1..], sep), sep);
      assert Join(parts, sep) == parts[0] + ([sep] + Join(parts[1..], sep));
      assert [parts[0]] + parts[1..] == parts;
    }
  }

  lemma {:induction false} SplitFree(w: string, sep: char)
    requires sep !in w
    ensures Split(w, sep) == [w]
  {
    if |w| > 0 {
      assert sep !in w[1..] by { assert forall c :: c in w[1..] ==> c in w; }
      SplitFree(w[1..], sep);
      assert [w[0]] + w[1..] == w;
    }
  }

  /** Splitting `w + sep + rest` with `sep` absent from `w` yields `w` followed
      by the pieces of `rest`. */
  lemma {:induction false} SplitPrefix(w: string, rest: string, sep: char)
    requires sep !in w
    ensures Split(w + [sep] + rest, sep) == [w] + Split(rest, sep)
  {
    if |w| == 0 {
      assert ([sep] + rest)[1..] == rest;
    } else {
      assert sep !in w[1..] by { assert forall c :: c in w[1..] ==> c in w; }
      SplitPrefix(w[1..], rest, sep);
      assert (w + [sep] + rest)[1..] == w[1..] + [sep] + rest;
      assert [w[0]] + w[1..] == w;
    }
  }

  /** The characters PHP's `trim` strips by default: space, tab, LF, CR, NUL
      and vertical tab. */
  predicate IsTrimmable(c: char)
  {
    c == ' ' || c == '\t' || c == '\n' || c == '\r' || c == '\0' || c == '\U{B}'
  }

  /** Drops leading trimmable characters: the result is the suffix of `s` that
      starts at its first non-trimmable character. */
  function TrimLeft(s: string): (r: string)
    ensures |r| <= |s| && r == s[|s| - |r|..]
    ensures forall i :: 0 <= i < |s| - |r| ==> IsTrimmable(s[i])
    ensures r != [] ==> !IsTrimmable(r[0])
  {
    if s != [] && IsTrimmable(s[0]) then TrimLeft(s[1..]) else s
  }

  /** Drops trailing trimmable characters: the result is the prefix of `s` that
      ends at its last non-trimmable character. */
  function TrimRight(s: string): (r: string)
    ensures |r| <= |s| && r == s[..|r|]
    ensures forall i :: |r| <= i < |s| ==> IsTrimmable(s[i])
    ensures r != [] ==> !IsTrimmable(r[|r| - 1])
  {
    if s != [] && IsTrimmable(s[|s| - 1]) then TrimRight(s[..|s| - 1]) else s
  }

  /** `trim(s)`: drops trimmable characters at both ends. */
  function Trim(s: string): (r: string)
    ensures IsTrimmed(r)
    ensures Padded(s, |s| - |TrimLeft(s)|, r)
  {
    TrimPads(s);
    TrimRight(TrimLeft(s))
  }

  lemma TrimPads(s: string)
    ensures Padded(s, |s| - |TrimLeft(s)|, TrimRight(TrimLeft(s)))
  {
    var l := TrimLeft(s);
    PaddedOfParts(s, |s| - |l|, l, TrimRight(l));
  }

  /** Trimming the front and then the back of what is left pads `r` on both
      sides. */
  lemma PaddedOfParts(s: string, a: int, l: string, r: string)
    requires 0 <= a <= |s| && l == s[a..]
    requires |r| <= |l| && r == l[..|r|]
    requires forall i :: 0 <= i < a ==> IsTrimmable(s[i])
    requires forall i :: |r| <= i < |l| ==> IsTrimmable(l[i])
    ensures Padded(s, a, r)
  {
    assert l[..|r|] == s[a..a + |r|];
    forall i | a + |r| <= i < |s| ensures IsTrimmable(s[i]) {
      assert s[i] == l[i - a];
    }
  }

  /** `s` is `r` with only trimmable characters before position `a` and after
      `r`. */
  predicate Padded(s: string, a: int, r: string)
  {
    && 0 <= a <= |s| - |r|
    && r == s[a..a + |r|]
    && (forall i :: 0 <= i < a ==> IsTrimmable(s[i]))
    && (forall i :: a + |r| <= i < |s| ==> IsTrimmable(s[i]))
  }

  /** A string with no trimmable character at either end. */
  predicate IsTrimmed(s: string)
  {
    s == [] || (!IsTrimmable(s[0]) && !IsTrimmable(s[|s| - 1]))
  }

  /** `trim` leaves an already trimmed string alone, so it is idempotent. */
  lemma TrimTrimmed(s: string)
    requires IsTrimmed(s)
    ensures Trim(s) == s
  {
    assert TrimLeft(s) == s;
  }

  /** `trim` introduces no character that `s` does not hold. */
  lemma TrimKeepsChars(s: string, c: char)
    ensures c in Trim(s) ==> c in s
  {
    var r := Trim(s);
    var a := |s| - |TrimLeft(s)|;
    if c in r {
      var i :| 0 <= i < |r| && r[i] == c;
      assert s[a + i] == c;
    }
  }

  lemma TrimIdempotent(s: string)
    ensures Trim(Trim(s)) == Trim(s)
  {
    TrimTrimmed(Trim(s));
  }

  /** PHP's truthiness of a string: everything but "" and "0". */
  predicate Truthy(s: string)
  {
    s != "" && s != "0"
  }
}
