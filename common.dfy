/** Values and string helpers shared by the routes: identifiers, optional
    request fields, JavaScript's `trim` and `split`, the image-size rule and
    the case-insensitive match used by user search. */
module Common {

  /** A MongoDB ObjectId in the string form the routes compare. */
  type Id = string

  /** A request field that may be missing (JavaScript `undefined`). */
  datatype Option<+T> = None | Some(value: T)

  datatype Result<+T, +E> = Success(value: T) | Failure(error: E)

  // ---------------------------------------------------------------------
  // String.prototype.trim

  /** White space and line terminators that `trim` removes: the ASCII ones,
      no-break space, the two Unicode line separators and the byte-order mark. */
  predicate IsSpace(c: char) {
    c == ' ' || c == '\t' || c == '\n' || c == '\r'
    || c as int == 0x0B || c as int == 0x0C || c as int == 0xA0
    || c as int == 0x2028 || c as int == 0x2029 || c as int == 0xFEFF
  }

  /** Every character of `s` is white space. */
  predicate AllSpace(s: string) {
    forall i :: 0 <= i < |s| ==> IsSpace(s[i])
  }

  function TrimStart(s: string): (r: string)
    ensures |r| <= |s| && r == s[|s| - |r|..]
    ensures r != [] ==> !IsSpace(r[0])
    ensures AllSpace(s[..|s| - |r|])
    decreases |s|
  {
    if s != [] && IsSpace(s[0]) then
      var r := TrimStart(s[1..]);
      assert s[..|s| - |r|] == [s[0]] + s[1..][..|s| - 1 - |r|];
      r
    else s
  }

  function TrimEnd(s: string): (r: string)
    ensures |r| <= |s| && r == s[..|r|]
    ensures r != [] ==> !IsSpace(r[|r| - 1])
    ensures AllSpace(s[|r|..])
    decreases |s|
  {
    if s != [] && IsSpace(s[|s| - 1]) then
      var r := TrimEnd(s[..|s| - 1]);
      assert s[|r|..] == s[..|s| - 1][|r|..] + [s[|s| - 1]];
      r
    else s
  }

  /** `s.trim()`: a contiguous piece of `s` with no white space at either end,
      empty exactly when `s` is all white space. */
  function Trim(s: string): (r: string)
    ensures |r| <= |s|
    ensures r != [] ==> !IsSpace(r[0]) && !IsSpace(r[|r| - 1])
    ensures r == [] <==> AllSpace(s)
    ensures exists i :: 0 <= i <= |s| - |r| && r == s[i..][..|r|]
              && AllSpace(s[..i]) && AllSpace(s[i + |r|..])
  {
    TrimWindow(s);
    TrimEnd(TrimStart(s))
  }

  /** Trimming the start and then the end keeps the piece of `s` that starts
      at the first non-space and is followed only by white space. */
  lemma TrimWindow(s: string)
    ensures var r := TrimEnd(TrimStart(s));
            && (r == [] <==> AllSpace(s))
            && exists i :: 0 <= i <= |s| - |r| && r == s[i..][..|r|]
                 && AllSpace(s[..i]) && AllSpace(s[i + |r|..])
  {
    var front := TrimStart(s);
    var r := TrimEnd(front);
    var i := |s| - |front|;
    assert front == s[i..] && r == front[..|r|];
    assert s[i + |r|..] == front[|r|..];
    if r == [] {
      assert s[..i] == s;
    } else {
      assert r[0] == s[i];
    }
  }

  /** `!s.trim()`: the string is empty after trimming. */
  predicate Blank(s: string) {
    Trim(s) == []
  }

  /** `if (o)` on a request field: present and not the empty string. */
  predicate Present(o: Option<string>) {
    o.Some? && o.value != []
  }

  /** `o?.trim()` is truthy: present and not blank. */
  predicate Filled(o: Option<string>)
    ensures Filled(o) ==> Present(o)
  {
    o.Some? && !Blank(o.value)
  }

  // ---------------------------------------------------------------------
  // String.prototype.split with a one-character separator

  function Count(s: string, c: char): nat {
    if s == [] then 0 else (if s[0] == c then 1 else 0) + Count(s[1..], c)
  }

  /** `s.split(sep)`: the pieces between separators, in order; one more piece
      than there are separators, and no piece holds the separator. */
  function Split(s: string, sep: char): (parts: seq<string>)
    ensures |parts| == Count(s, sep) + 1
    ensures forall i :: 0 <= i < |parts| ==> sep !in parts[i]
    decreases |s|
  {
    if s == [] then [[]]
    else
      var rest := Split(s[1..], sep);
      if s[0] == sep then [[]] + rest
      else [[s[0]] + rest[0]] + rest[1..]
  }

  /** `parts.join(sep)`, the inverse of Split. */
  function Join(parts: seq<string>, sep: char): string
    requires |parts| >= 1
    decreases |parts|
  {
    if |parts| == 1 then parts[0] else parts[0] + [sep] + Join(parts[1..], sep)
  }

  lemma {:induction false} JoinSplit(s: string, sep: char)
    ensures Join(Split(s, sep), sep) == s
    decreases |s|
  {
    if s != [] {
      var rest := Split(s[1..], sep);
      JoinSplit(s[1..], sep);
      if s[0] == sep {
        assert Split(s, sep) == [[]] + rest;
        assert ([[]] + rest)[1..] == rest;
      } else {
        var parts := Split(s, sep);
        assert parts == [[s[0]] + rest[0]] + rest[1..];
        if |rest| == 1 {
          assert parts == [[s[0]] + rest[0]];
        } else {
          assert parts[1..] == rest[1..];
          assert Join(rest, sep) == rest[0] + [sep] + Join(rest[1..], sep);
        }
      }
    }
  }

  lemma {:induction false} SplitJoin(parts: seq<string>, sep: char)
    requires |parts| >= 1
    requires forall i :: 0 <= i < |parts| ==> sep !in parts[i]
    ensures Split(Join(parts, sep), sep) == parts
    decreases |parts|, |parts[0]|
  {
    if parts[0] == [] {
      if |parts| > 1 {
        SplitJoin(parts[1..], sep);
        var s := Join(parts, sep);
        assert s == [sep] + Join(parts[1..], sep);
        assert s[1..] == Join(parts[1..], sep);
        assert parts == [[]] + parts[1..];
      }
    } else {
      var head := parts[0];
      var shorter := [head[1..]] + parts[1..];
      assert shorter[1..] == parts[1..];
      forall i | 0 <= i < |shorter| ensures sep !in shorter[i] {
        if i == 0 { assert forall c :: c in head[1..] ==> c in head; }
      }
      SplitJoin(shorter, sep);
      var s := Join(parts, sep);
      if |parts| == 1 {
        assert s == head && s[1..] == head[1..] == Join(shorter, sep);
      } else {
        assert s == head + [sep] + Join(parts[1..], sep);
        assert s[1..] == head[1..] + [sep] + Join(parts[1..], sep) == Join(shorter, sep);
      }
      assert s[0] == head[0] != sep;
      var rest := Split(s[1..], sep);
      assert rest == shorter;
      assert [head[0]] + head[1..] == head;
    }
  }

  // ---------------------------------------------------------------------
  // String lengths as JavaScript counts them

  /** The UTF-16 code units that encode `c`: two for a character outside the
      Basic Multilingual Plane (a surrogate pair), one otherwise. */
  function CodeUnits(c: char): nat {
    if c as int > 0xFFFF then 2 else 1
  }

  /** `s.length`: the number of UTF-16 code units, which exceeds the number
      of characters by one for each character outside the Basic Multilingual
      Plane. */
  function Utf16Length(s: string): (n: nat)
    ensures |s| <= n <= 2 * |s|
    ensures n == |s| <==> forall i :: 0 <= i < |s| ==> s[i] as int <= 0xFFFF
    ensures |s| == 1 ==> n == CodeUnits(s[0])
    decreases |s|
  {
    if s == [] then 0 else CodeUnits(s[0]) + Utf16Length(s[1..])
  }

  /** The length of a concatenation is the sum of the lengths; with the
      length of one character, this fixes `Utf16Length` on every string. */
  lemma {:induction false} Utf16LengthAppend(a: string, b: string)
    ensures Utf16Length(a + b) == Utf16Length(a) + Utf16Length(b)
    decreases |a|
  {
    if a != [] {
      assert (a + b)[1..] == a[1..] + b;
      Utf16LengthAppend(a[1..], b);
    } else {
      assert a + b == b;
    }
  }

  // ---------------------------------------------------------------------
  // The image-size rule

  const MiB: nat := 1024 * 1024

  /** `fs.statSync(path).size / (1024 * 1024) > 1`, evaluated in floating
      point as the routes do (dividing by a power of two is exact): a file is
      too large exactly when it has more than 1048576 bytes. */
  predicate TooLarge(size: nat)
    ensures TooLarge(size) <==> size > MiB
  {
    (size as real) / (MiB as real) > 1.0
  }

  // ---------------------------------------------------------------------
  // Case-insensitive literal matching (the `$regex` search with option 'i')

  function LowerAscii(c: char): char {
    if 'A' <= c <= 'Z' then (c as int + 32) as char else c
  }

  predicate SameIgnoringCase(a: char, b: char) {
    LowerAscii(a) == LowerAscii(b)
  }

  /** `needle` is a prefix of `hay`, ignoring ASCII case. */
  predicate PrefixIgnoringCase(needle: string, hay: string)
    decreases |needle|
  {
    |needle| <= |hay|
    && (needle == [] || (SameIgnoringCase(needle[0], hay[0]) && PrefixIgnoringCase(needle[1..], hay[1..])))
  }

  /** `hay` contains `needle` somewhere, ignoring ASCII case. */
  predicate ContainsIgnoringCase(hay: string, needle: string)
    decreases |hay|
  {
    PrefixIgnoringCase(needle, hay) || (hay != [] && ContainsIgnoringCase(hay[1..], needle))
  }

  /** The search match is a real substring match: it holds exactly when some
      window of `hay` equals `needle` letter for letter, up to case. */
  lemma {:induction false} ContainsIgnoringCaseWindow(hay: string, needle: string)
    ensures ContainsIgnoringCase(hay, needle) <==>
            exists i :: 0 <= i <= |hay| - |needle| && PrefixIgnoringCase(needle, hay[i..])
  {
    if ContainsIgnoringCase(hay, needle) {
      ContainsHasWindow(hay, needle);
    }
    if exists i :: 0 <= i <= |hay| - |needle| && PrefixIgnoringCase(needle, hay[i..]) {
      var i :| 0 <= i <= |hay| - |needle| && PrefixIgnoringCase(needle, hay[i..]);
      WindowIsContained(hay, needle, i);
    }
  }

  lemma {:induction false} ContainsHasWindow(hay: string, needle: string)
    requires ContainsIgnoringCase(hay, needle)
    ensures exists i :: 0 <= i <= |hay| - |needle| && PrefixIgnoringCase(needle, hay[i..])
    decreases |hay|
  {
    if PrefixIgnoringCase(needle, hay) {
      assert hay[0..] == hay;
    } else {
      ContainsHasWindow(hay[1..], needle);
      var i :| 0 <= i <= |hay[1..]| - |needle| && PrefixIgnoringCase(needle, hay[1..][i..]);
      assert hay[1..][i..] == hay[i + 1..];
    }
  }

  lemma {:induction false} WindowIsContained(hay: string, needle: string, i: nat)
    requires i <= |hay| - |needle| && PrefixIgnoringCase(needle, hay[i..])
    ensures ContainsIgnoringCase(hay, needle)
    decreases i
  {
    if i == 0 {
      assert hay[0..] == hay;
    } else {
      assert hay[1..][i - 1..] == hay[i..];
      WindowIsContained(hay[1..], needle, i - 1);
    }
  }
}
