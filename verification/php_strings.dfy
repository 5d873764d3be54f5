/** The PHP string builtins the nofollow check relies on, modelled exactly:
    `trim` with its default character list, ASCII `strtolower`, and
    `explode(" ", ·)` together with its inverse `implode(" ", ·)`. */
module PhpStrings {

  /** The characters PHP's `trim` strips by default: " \t\n\r\0\x0B". */
  predicate IsTrimChar(c: char) {
    c == ' ' || c == '\t' || c == '\n' || c == '\r' || c == '\0' || c == '\U{0B}'
  }

  /** Number of trim characters at the front of `s`. */
  function LeadingTrim(s: string): (n: nat)
    ensures n <= |s|
    ensures forall i :: 0 <= i < n ==> IsTrimChar(s[i])
    ensures n < |s| ==> !IsTrimChar(s[n])
  {
    if |s| == 0 || !IsTrimChar(s[0]) then 0 else 1 + LeadingTrim(s[1..])
  }

  /** Number of trim characters at the back of `s`. */
  function TrailingTrim(s: string): (n: nat)
    ensures n <= |s|
    ensures forall i :: |s| - n <= i < |s| ==> IsTrimChar(s[i])
    ensures n < |s| ==> !IsTrimChar(s[|s| - n - 1])
  {
    if |s| == 0 || !IsTrimChar(s[|s| - 1]) then 0 else 1 + TrailingTrim(s[..|s| - 1])
  }

  /** PHP `trim($s)`: the longest infix of `s` that neither starts nor ends
      with a trim character, obtained by removing only trim characters. */
  function Trim(s: string): (r: string)
    ensures |r| > 0 ==> !IsTrimChar(r[0]) && !IsTrimChar(r[|r| - 1])
    ensures |r| <= |s|
  {
    var a := LeadingTrim(s);
    var rest := s[a..];
    var b := TrailingTrim(rest);
    assert rest[..|rest| - b] == s[a..|s| - b];
    s[a..|s| - b]
  }

  /** `trim` removes only trim characters, and only from the two ends. */
  lemma TrimIsInfix(s: string)
    ensures exists i, j :: 0 <= i <= j <= |s| && Trim(s) == s[i..j]
                           && (forall k :: 0 <= k < i ==> IsTrimChar(s[k]))
                           && (forall k :: j <= k < |s| ==> IsTrimChar(s[k]))
  {
    var a := LeadingTrim(s);
    var b := TrailingTrim(s[a..]);
    assert Trim(s) == s[a..|s| - b];
    forall k | |s| - b <= k < |s| ensures IsTrimChar(s[k]) {
      assert s[k] == s[a..][k - a];
    }
  }

  /** A string that neither starts nor ends with a trim character is left
      untouched by `trim`. */
  lemma TrimOfTrimmed(s: string)
    requires |s| > 0 ==> !IsTrimChar(s[0]) && !IsTrimChar(s[|s| - 1])
    ensures Trim(s) == s
  {
    assert LeadingTrim(s) == 0;
    assert TrailingTrim(s) == 0;
  }

  /** `trim` is idempotent. */
  lemma TrimIdempotent(s: string)
    ensures Trim(Trim(s)) == Trim(s)
  {
    TrimOfTrimmed(Trim(s));
  }

  predicate IsAsciiUpper(c: char) {
    'A' <= c <= 'Z'
  }

  /** ASCII lower-casing of one character: only A-Z change. This is PHP
      8.2's locale-independent `strtolower`, and also that of PHP 8.0 and 8.1
      under the default "C" locale. */
  function LowerChar(c: char): (r: char)
    ensures !IsAsciiUpper(r)
    ensures !IsAsciiUpper(c) ==> r == c
    ensures IsAsciiUpper(c) ==> r as int == c as int + 32
  {
    if IsAsciiUpper(c) then (c as int + 32) as char else c
  }

  /** PHP `strtolower`. */
  function ToLower(s: string): (r: string)
    ensures |r| == |s|
    ensures forall i :: 0 <= i < |r| ==> !IsAsciiUpper(r[i])
    ensures forall i :: 0 <= i < |s| && !IsAsciiUpper(s[i]) ==> r[i] == s[i]
    ensures forall i :: 0 <= i < |s| ==> r[i] == LowerChar(s[i])
  {
    seq(|s|, i requires 0 <= i < |s| => LowerChar(s[i]))
  }

  /** PHP `explode(" ", $s)`: the pieces between single spaces, in order.
      The empty string yields one empty piece. */
  function Explode(s: string): (r: seq<string>)
    ensures |r| >= 1
    ensures forall i :: 0 <= i < |r| ==> ' ' !in r[i]
  {
    if |s| == 0 then [""]
    else
      var rest := Explode(s[1..]);
      assert s == [s[0]] + s[1..];
      if s[0] == ' ' then [""] + rest
      else [[s[0]] + rest[0]] + rest[1..]
  }

  /** PHP `implode(" ", $pieces)`. */
  function Implode(pieces: seq<string>): (r: string)
    requires |pieces| >= 1
  {
    if |pieces| == 1 then pieces[0] else pieces[0] + " " + Implode(pieces[1..])
  }

  /** Prepending a non-space character to the first piece. */
  lemma ImplodeExtendHead(c: char, rest: seq<string>, p: seq<string>)
    requires |p| == |rest| >= 1
    requires p[0] == [c] + rest[0] && p[1..] == rest[1..]
    ensures Implode(p) == [c] + Implode(rest)
  {
    if |rest| > 1 {
      var tail := Implode(rest[1..]);
      assert Implode(p) == p[0] + " " + tail;
      assert Implode(rest) == rest[0] + " " + tail;
      ConcatAssoc([c], rest[0], " " + tail);
    }
  }

  lemma ConcatAssoc(a: string, b: string, c: string)
    ensures (a + b) + c == a + (b + c)
  {
  }

  /** Joining the pieces of `explode` back with spaces gives the input. */
  lemma {:induction false} ImplodeExplode(s: string)
    ensures Implode(Explode(s)) == s
  {
    if |s| > 0 {
      var rest := Explode(s[1..]);
      ImplodeExplode(s[1..]);
      if s[0] == ' ' {
        var p := [""] + rest;
        assert Explode(s) == p;
        assert p[1..] == rest;
        assert Implode(p) == "" + " " + Implode(rest);
        assert s == " " + s[1..];
      } else {
        var p := [[s[0]] + rest[0]] + rest[1..];
        assert Explode(s) == p;
        assert p[1..] == rest[1..];
        ImplodeExtendHead(s[0], rest, p);
        assert s == [s[0]] + s[1..];
      }
    }
  }

  /** Explode of a string without spaces is that string alone. */
  lemma {:induction false} ExplodeNoSpace(s: string)
    requires ' ' !in s
    ensures Explode(s) == [s]
  {
    if |s| > 0 {
      assert ' ' !in s[1..] by {
        forall k | 0 <= k < |s[1..]| ensures s[1..][k] != ' ' { assert s[1..][k] == s[k + 1]; }
      }
      ExplodeNoSpace(s[1..]);
      assert s == [s[0]] + s[1..];
    }
  }

  /** Explode splits a space-joined string into the pieces of each side. */
  lemma {:induction false} ExplodeJoin(a: string, b: string)
    ensures Explode(a + " " + b) == Explode(a) + Explode(b)
    decreases |a|
  {
    var s := a + " " + b;
    if |a| == 0 {
      assert s == " " + b;
      assert s[1..] == b;
    } else {
      assert s[1..] == a[1..] + " " + b;
      ExplodeJoin(a[1..], b);
      var ra := Explode(a[1..]);
      assert s[0] == a[0];
      if a[0] != ' ' {
        assert ra == [ra[0]] + ra[1..];
      }
    }
  }

  /** Exploding the space-join of space-free pieces gives the pieces back. */
  lemma {:induction false} ExplodeImplode(pieces: seq<string>)
    requires |pieces| >= 1
    requires forall i :: 0 <= i < |pieces| ==> ' ' !in pieces[i]
    ensures Explode(Implode(pieces)) == pieces
  {
    if |pieces| == 1 {
      ExplodeNoSpace(pieces[0]);
    } else {
      ExplodeImplode(pieces[1..]);
      ExplodeNoSpace(pieces[0]);
      ExplodeJoin(pieces[0], Implode(pieces[1..]));
      assert pieces == [pieces[0]] + pieces[1..];
    }
  }
}
