/**
  JavaScript string primitives used by the schema: `trim`, `split` on a
  one-character separator, `join`, the per-character case mapping behind
  `toLocaleUpperCase`/`toLowerCase`, and `length` counted in UTF-16 code units.
*/
module Text {

  /** A white-space character as `String.prototype.trim` removes it:
      ECMAScript's WhiteSpace and LineTerminator code points. */
  predicate IsWs(c: char) {
    c == '\t' || c == '\n' || c == '\U{000B}' || c == '\U{000C}' || c == '\r'
    || c == ' ' || c == '\U{00A0}' || c == '\U{1680}'
    || ('\U{2000}' <= c <= '\U{200A}')
    || c == '\U{2028}' || c == '\U{2029}' || c == '\U{202F}' || c == '\U{205F}'
    || c == '\U{3000}' || c == '\U{FEFF}'
  }

  /** Documents which characters `IsWs` covers: the characters `trim` removes
      include the no-break space, the byte-order mark and the ideographic
      space, but not the zero-width space. */
  lemma TrimWhiteSpaceSet()
    ensures IsWs('\U{00A0}') && IsWs('\U{FEFF}') && IsWs('\U{3000}') && IsWs('\U{2028}')
    ensures !IsWs('\U{200B}') && !IsWs('\U{180E}') && !IsWs('\U{0085}')
  {
  }

  predicate AllWs(s: string) {
    forall i :: 0 <= i < |s| ==> IsWs(s[i])
  }

  /** A string made of two white-space runs is one white-space run. */
  lemma AllWsConcat(a: string, b: string)
    requires AllWs(a) && AllWs(b)
    ensures AllWs(a + b)
  {
    forall i | 0 <= i < |a + b| ensures IsWs((a + b)[i]) {
      if i < |a| { assert (a + b)[i] == a[i]; } else { assert (a + b)[i] == b[i - |a|]; }
    }
  }

  // ---------------------------------------------------------------------------
  // trim

  /** Drops the leading white space. */
  function TrimStart(s: string): (r: string)
    ensures |r| <= |s| && r == s[|s| - |r|..]
    ensures AllWs(s[..|s| - |r|])
    ensures r == [] || !IsWs(r[0])
  {
    if s != [] && IsWs(s[0]) then
      var r := TrimStart(s[1..]);
      assert s[..|s| - |r|] == [s[0]] + s[1..][..|s| - 1 - |r|];
      AllWsConcat([s[0]], s[1..][..|s| - 1 - |r|]);
      r
    else s
  }

  /** Drops the trailing white space. */
  function TrimEnd(s: string): (r: string)
    ensures |r| <= |s| && r == s[..|r|]
    ensures AllWs(s[|r|..])
    ensures r == [] || !IsWs(r[|r| - 1])
  {
    if s != [] && IsWs(s[|s| - 1]) then
      var r := TrimEnd(s[..|s| - 1]);
      assert s[|r|..] == s[..|s| - 1][|r|..] + [s[|s| - 1]];
      AllWsConcat(s[..|s| - 1][|r|..], [s[|s| - 1]]);
      r
    else s
  }

  /** `s.trim()`: the longest infix of `s` that neither starts nor ends with white space,
      obtained by removing only white space from both ends. */
  function Trim(s: string): (r: string)
    ensures r == [] || (!IsWs(r[0]) && !IsWs(r[|r| - 1]))
    ensures StripsWs(s, r)
  {
    TrimWitness(s);
    TrimEnd(TrimStart(s))
  }

  /** `r` is an infix of `s` and everything of `s` before and after it is white space. */
  predicate StripsWs(s: string, r: string) {
    exists k :: 0 <= k <= |s| - |r| && r == s[k..k + |r|] && AllWs(s[..k]) && AllWs(s[k + |r|..])
  }

  /** Where the trimmed string sits in the input: after the leading white space. */
  lemma TrimWitness(s: string)
    ensures StripsWs(s, TrimEnd(TrimStart(s)))
  {
    var t := TrimStart(s);
    var r := TrimEnd(t);
    var k := |s| - |t|;
    assert t == s[k..];
    assert s[k..k + |r|] == r;
    assert s[k + |r|..] == t[|r|..];
    StripsWsIntro(s, r, k);
  }

  /** Names the position where the kept part starts. */
  lemma StripsWsIntro(s: string, r: string, k: nat)
    requires k + |r| <= |s| && r == s[k..k + |r|]
    requires AllWs(s[..k]) && AllWs(s[k + |r|..])
    ensures StripsWs(s, r)
  {
  }

  /** A string that already neither starts nor ends with white space is left as it is. */
  lemma {:induction false} TrimFixed(s: string)
    requires s == [] || (!IsWs(s[0]) && !IsWs(s[|s| - 1]))
    ensures Trim(s) == s
  {
    assert TrimStart(s) == s;
    assert TrimEnd(s) == s;
  }

  /** Trimming removes everything exactly when the string is white space only. */
  lemma {:induction false} TrimEmpty(s: string)
    ensures Trim(s) == [] <==> AllWs(s)
  {
    StripsWsEmpty(s, Trim(s));
  }

  /** Stripping white space leaves nothing exactly when there was nothing else. */
  lemma StripsWsEmpty(s: string, r: string)
    requires StripsWs(s, r) && (r == [] || !IsWs(r[0]))
    ensures r == [] <==> AllWs(s)
  {
    var k :| 0 <= k <= |s| - |r| && r == s[k..k + |r|] && AllWs(s[..k]) && AllWs(s[k + |r|..]);
    if r == [] {
      AllWsConcat(s[..k], s[k..]);
      assert s[..k] + s[k..] == s;
    } else {
      assert s[k] == r[0];
    }
  }

  // ---------------------------------------------------------------------------
  // split and join

  /** `s.split(sep)` for a one-character separator: the pieces between
      consecutive occurrences of `sep`, empty pieces included. */
  function Split(s: string, sep: char): (parts: seq<string>)
    ensures |parts| >= 1
    ensures forall i :: 0 <= i < |parts| ==> sep !in parts[i]
  {
    if s == [] then [[]]
    else
      var rest := Split(s[1..], sep);
      if s[0] == sep then [[]] + rest
      else [[s[0]] + rest[0]] + rest[1..]
  }

  /** How a split of a non-empty string is made from the split of its tail. */
  lemma SplitCons(s: string, sep: char)
    requires s != []
    ensures Split(s, sep) == if s[0] == sep then [[]] + Split(s[1..], sep)
                             else [[s[0]] + Split(s[1..], sep)[0]] + Split(s[1..], sep)[1..]
  {
  }

  /** The total length of the pieces. */
  function TotalLength(parts: seq<string>): nat {
    if parts == [] then 0 else |parts[0]| + TotalLength(parts[1..])
  }

  /** `parts.join(sep)`: the pieces with one separator between neighbours, and
      no separator at either end. */
  function Join(parts: seq<string>, sep: char): (r: string)
    ensures |r| == if parts == [] then 0 else TotalLength(parts) + |parts| - 1
    ensures parts != [] ==> r[..|parts[0]|] == parts[0]
    ensures |parts| >= 2 ==> r[|parts[0]|] == sep
  {
    if parts == [] then []
    else if |parts| == 1 then parts[0]
    else parts[0] + [sep] + Join(parts[1..], sep)
  }

  /** Joining the pieces of a split with the same separator gives the string back. */
  lemma {:induction false} JoinSplit(s: string, sep: char)
    ensures Join(Split(s, sep), sep) == s
  {
    if s != [] {
      var rest := Split(s[1..], sep);
      JoinSplit(s[1..], sep);
      if s[0] == sep {
        assert Split(s, sep) == [[]] + rest;
        assert ([[]] + rest)[1..] == rest;
      } else {
        var parts := Split(s, sep);
        assert parts == [[s[0]] + rest[0]] + rest[1..];
        if |rest| == 1 {
          assert Join(rest, sep) == rest[0];
        } else {
          assert parts[1..] == rest[1..];
          assert Join(rest, sep) == rest[0] + [sep] + Join(rest[1..], sep);
        }
        assert s == [s[0]] + s[1..];
      }
    }
  }

  /** Splitting a join of separator-free pieces gives the pieces back. */
  lemma {:induction false} SplitJoin(parts: seq<string>, sep: char)
    requires |parts| >= 1
    requires forall i :: 0 <= i < |parts| ==> sep !in parts[i]
    ensures Split(Join(parts, sep), sep) == parts
  {
    if |parts| == 1 {
      SplitFree(parts[0], sep);
    } else {
      var tail := Join(parts[1..], sep);
      SplitJoin(parts[1..], sep);
      SplitPrefix(parts[0], sep, tail);
      assert Join(parts, sep) == parts[0] + [sep] + tail;
      assert [parts[0]] + parts[1..] == parts;
    }
  }

  /** A separator-free string splits into itself alone. */
  lemma {:induction false} SplitFree(s: string, sep: char)
    requires sep !in s
    ensures Split(s, sep) == [s]
  {
    if s != [] {
      assert sep !in s[1..] by {
        forall i | 0 <= i < |s[1..]| ensures s[1..][i] != sep { assert s[1..][i] == s[i + 1]; }
      }
      SplitFree(s[1..], sep);
      assert [s[0]] + s[1..] == s;
    }
  }

  /** A separator-free prefix followed by the separator becomes the first piece. */
  lemma {:induction false} SplitPrefix(p: string, sep: char, t: string)
    requires sep !in p
    ensures Split(p + [sep] + t, sep) == [p] + Split(t, sep)
  {
    var s := p + [sep] + t;
    if p == [] {
      assert s[1..] == t;
    } else {
      assert s[1..] == p[1..] + [sep] + t;
      assert sep !in p[1..] by {
        forall i | 0 <= i < |p[1..]| ensures p[1..][i] != sep { assert p[1..][i] == p[i + 1]; }
      }
      SplitPrefix(p[1..], sep, t);
      assert [p[0]] + p[1..] == p;
    }
  }

  /** A piece is empty exactly when the string is empty, starts or ends with
      the separator, or holds two separators in a row. */
  predicate HasEmptyPiece(s: string, sep: char) {
    s == [] || s[0] == sep || s[|s| - 1] == sep
    || exists i :: 0 <= i < |s| - 1 && s[i] == sep && s[i + 1] == sep
  }

  lemma {:induction false} SplitEmptyPiece(s: string, sep: char)
    ensures (exists i :: 0 <= i < |Split(s, sep)| && Split(s, sep)[i] == []) <==> HasEmptyPiece(s, sep)
  {
    var parts := Split(s, sep);
    JoinSplit(s, sep);
    JoinEmptyPiece(parts, sep);
  }

  lemma {:induction false} JoinEmptyPiece(parts: seq<string>, sep: char)
    requires |parts| >= 1
    requires forall i :: 0 <= i < |parts| ==> sep !in parts[i]
    ensures (exists i :: 0 <= i < |parts| && parts[i] == []) <==> HasEmptyPiece(Join(parts, sep), sep)
  {
    var p := parts[0];
    if |parts| == 1 {
      assert Join(parts, sep) == p;
      if p != [] {
        assert p[0] != sep && p[|p| - 1] != sep;
      }
    } else {
      var rest := parts[1..];
      assert Join(parts, sep) == p + [sep] + Join(rest, sep);
      JoinEmptyPiece(rest, sep);
      SomeEmptyCons(parts);
      EmptyPieceCons(p, Join(rest, sep), sep);
    }
  }

  /** Some piece of a list is empty exactly when its head or some piece of its tail is. */
  lemma SomeEmptyCons(parts: seq<string>)
    requires |parts| >= 2
    ensures (exists i :: 0 <= i < |parts| && parts[i] == [])
        <==> (parts[0] == [] || exists i :: 0 <= i < |parts[1..]| && parts[1..][i] == [])
  {
    var rest := parts[1..];
    if exists i :: 0 <= i < |rest| && rest[i] == [] {
      var i :| 0 <= i < |rest| && rest[i] == [];
      assert parts[i + 1] == [];
    }
  }

  /** Joining a separator-free piece in front of `j` adds an empty piece exactly
      when that piece is empty. */
  lemma EmptyPieceCons(p: string, j: string, sep: char)
    requires sep !in p
    ensures HasEmptyPiece(p + [sep] + j, sep) <==> p == [] || HasEmptyPiece(j, sep)
  {
    var s := p + [sep] + j;
    assert s[|p|] == sep;
    if p == [] {
      assert s[0] == sep;
    } else {
      assert s[0] == p[0] && p[0] != sep;
      if HasEmptyPiece(j, sep) {
        if j == [] {
          assert s[|s| - 1] == sep;
        } else if j[0] == sep {
          assert s[|p|] == sep && s[|p| + 1] == sep;
        } else if j[|j| - 1] == sep {
          assert s[|s| - 1] == j[|j| - 1];
        } else {
          var i :| 0 <= i < |j| - 1 && j[i] == sep && j[i + 1] == sep;
          assert s[|p| + 1 + i] == j[i] && s[|p| + 2 + i] == j[i + 1];
        }
      } else {
        assert s[|s| - 1] == j[|j| - 1];
        forall i | 0 <= i < |s| - 1 ensures !(s[i] == sep && s[i + 1] == sep) {
          if i < |p| {
            assert s[i] == p[i];
          } else if i == |p| {
            assert s[i + 1] == j[0];
          } else {
            assert s[i] == j[i - |p| - 1];
            assert s[i + 1] == j[i - |p|];
          }
        }
      }
    }
  }

  // ---------------------------------------------------------------------------
  // case mapping

  predicate IsAsciiUpper(c: char) { 'A' <= c <= 'Z' }
  predicate IsAsciiLower(c: char) { 'a' <= c <= 'z' }

  /** Latin-1 capitals À..Þ, without the multiplication sign. */
  predicate IsLatin1Upper(c: char) { '\U{00C0}' <= c <= '\U{00DE}' && c != '\U{00D7}' }
  /** Latin-1 small letters à..þ, without the division sign. */
  predicate IsLatin1Lower(c: char) { '\U{00E0}' <= c <= '\U{00FE}' && c != '\U{00F7}' }

  /** The upper-case form of one character (the letters of Basic Latin and Latin-1). */
  function Upper(c: char): (u: char)
    ensures !IsAsciiLower(u) && !IsLatin1Lower(u)
    ensures IsAsciiLower(c) || IsLatin1Lower(c) || u == c
    ensures IsAsciiLower(c) || IsLatin1Lower(c) ==> Lower(u) == c
  {
    if IsAsciiLower(c) || IsLatin1Lower(c) then (c as int - 0x20) as char else c
  }

  /** The lower-case form of one character (the letters of Basic Latin and Latin-1). */
  function Lower(c: char): (l: char)
    ensures !IsAsciiUpper(l) && !IsLatin1Upper(l)
    ensures IsAsciiUpper(c) || IsLatin1Upper(c) || l == c
    ensures IsAsciiUpper(c) || IsLatin1Upper(c) ==> IsAsciiLower(l) || IsLatin1Lower(l)
  {
    if IsAsciiUpper(c) || IsLatin1Upper(c) then (c as int + 0x20) as char else c
  }

  /** Each capital of Basic Latin and Latin-1 is the upper-case form of its small letter. */
  lemma LowerUpper(c: char)
    requires IsAsciiUpper(c) || IsLatin1Upper(c)
    ensures Upper(Lower(c)) == c
  {
  }

  /** `s.toLowerCase()`. */
  function LowerStr(s: string): (r: string)
    ensures |r| == |s|
    ensures forall i :: 0 <= i < |s| ==> r[i] == Lower(s[i])
  {
    seq(|s|, i requires 0 <= i < |s| => Lower(s[i]))
  }

  /** Upper-casing changes letters into letters only: white space, and the
      space in particular, are never produced or removed. */
  lemma UpperKeepsNonLetters(c: char)
    ensures IsWs(Upper(c)) <==> IsWs(c)
    ensures Upper(c) == ' ' <==> c == ' '
    ensures Upper(Upper(c)) == Upper(c)
  {
  }

  /** Lower-casing a lower-cased string changes nothing. */
  lemma {:induction false} LowerStrIdempotent(s: string)
    ensures LowerStr(LowerStr(s)) == LowerStr(s)
  {
    forall i | 0 <= i < |s| ensures Lower(Lower(s[i])) == Lower(s[i]) {
      assert !IsAsciiUpper(Lower(s[i])) && !IsLatin1Upper(Lower(s[i]));
    }
  }

  // ---------------------------------------------------------------------------
  // length

  /** `s.length`: JavaScript counts UTF-16 code units, so a character outside the
      Basic Multilingual Plane counts twice. */
  function Utf16Length(s: string): (n: nat)
    ensures |s| <= n <= 2 * |s|
    ensures n == 0 <==> s == []
    ensures n == |s| <==> forall i :: 0 <= i < |s| ==> s[i] as int < 0x1_0000
  {
    if s == [] then 0
    else (if s[0] as int >= 0x1_0000 then 2 else 1) + Utf16Length(s[1..])
  }

  /** One character is one code unit, or two (a surrogate pair) outside the
      Basic Multilingual Plane. */
  lemma Utf16LengthChar(c: char)
    ensures Utf16Length([c]) == if c as int >= 0x1_0000 then 2 else 1
  {
    assert [c][1..] == [];
  }

  /** The code-unit length of a concatenation is the sum of the lengths. */
  lemma {:induction false} Utf16LengthConcat(a: string, b: string)
    ensures Utf16Length(a + b) == Utf16Length(a) + Utf16Length(b)
  {
    if a != [] {
      assert (a + b)[0] == a[0];
      assert (a + b)[1..] == a[1..] + b;
      Utf16LengthConcat(a[1..], b);
    } else {
      assert a + b == b;
    }
  }
}
