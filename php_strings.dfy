/** The PHP and Laravel helper functions the importer relies on, on Dafny strings:
    PHP truthiness of a `?string`, PHP's `strtolower`, `mb_strtolower`,
    `explode`, `str_contains` and the extension part of `pathinfo`, and
    Laravel's `str(...)->trim()`. */
module PhpStrings {
  import opened Support

  /** PHP truthiness of a `?string`: `null`, `""` and `"0"` are falsy, every
      other string is truthy. */
  predicate Truthy(v: Option<string>)
  {
    v.Some? && v.value != "" && v.value != "0"
  }

  // ----- case folding -----

  predicate IsAsciiUpper(c: char)
  {
    'A' <= c <= 'Z'
  }

  /** Upper-case letters of the Latin-1 Supplement block, U+00C0 to U+00DE
      without the multiplication sign U+00D7. */
  predicate IsLatin1Upper(c: char)
  {
    '\U{C0}' <= c <= '\U{DE}' && c != '\U{D7}'
  }

  function AsciiLowerChar(c: char): (r: char)
    ensures !IsAsciiUpper(r)
  {
    if IsAsciiUpper(c) then (c as int + 32) as char else c
  }

  function MbLowerChar(c: char): (r: char)
    ensures !IsAsciiUpper(r) && !IsLatin1Upper(r)
  {
    if IsAsciiUpper(c) || IsLatin1Upper(c) then (c as int + 32) as char else c
  }

  /** `strtolower`: since PHP 8.2 it folds the ASCII letters only. */
  function StrToLower(s: string): (r: string)
    ensures |r| == |s|
  {
    seq(|s|, i requires 0 <= i < |s| => AsciiLowerChar(s[i]))
  }

  /** `mb_strtolower`, restricted to the ASCII and Latin-1 letters. */
  function MbStrToLower(s: string): (r: string)
    ensures |r| == |s|
  {
    seq(|s|, i requires 0 <= i < |s| => MbLowerChar(s[i]))
  }

  /** Folding twice is folding once, so comparing folded strings is an
      equivalence on case variants. */
  lemma MbStrToLowerIdempotent(s: string)
    ensures MbStrToLower(MbStrToLower(s)) == MbStrToLower(s)
  {
    var once := MbStrToLower(s);
    forall i | 0 <= i < |s| ensures MbStrToLower(once)[i] == once[i] {
      assert !IsAsciiUpper(once[i]) && !IsLatin1Upper(once[i]);
    }
  }

  // ----- trim -----

  /** The characters PHP's `trim` removes by default. */
  predicate IsTrimSpace(c: char)
  {
    c == ' ' || c == '\t' || c == '\n' || c == '\r' || c == '\0' || c == '\U{B}'
  }

  /** Removes the leading white space. */
  function TrimLeft(s: string): (r: string)
    decreases |s|
  {
    if s != [] && IsTrimSpace(s[0]) then TrimLeft(s[1..]) else s
  }

  /** Removes the trailing white space. */
  function TrimRight(s: string): (r: string)
    decreases |s|
  {
    if s != [] && IsTrimSpace(s[|s| - 1]) then TrimRight(s[..|s| - 1]) else s
  }

  /** TrimLeft removes white space only, only from the front, and all of it. */
  lemma {:induction false} TrimLeftIsSuffix(s: string)
    ensures var r := TrimLeft(s);
      && |r| <= |s| && r == s[|s| - |r|..]
      && (forall i :: 0 <= i < |s| - |r| ==> IsTrimSpace(s[i]))
      && (r == [] || !IsTrimSpace(r[0]))
    decreases |s|
  {
    if s != [] && IsTrimSpace(s[0]) {
      TrimLeftIsSuffix(s[1..]);
    }
  }

  /** TrimRight removes white space only, only from the back, and all of it. */
  lemma {:induction false} TrimRightIsPrefix(s: string)
    ensures var r := TrimRight(s);
      && |r| <= |s| && r == s[..|r|]
      && (forall i :: |r| <= i < |s| ==> IsTrimSpace(s[i]))
      && (r == [] || !IsTrimSpace(r[|r| - 1]))
    decreases |s|
  {
    if s != [] && IsTrimSpace(s[|s| - 1]) {
      TrimRightIsPrefix(s[..|s| - 1]);
    }
  }

  /** PHP's `trim` with its default character list: the longest substring
      that neither starts nor ends with white space, obtained by dropping
      white space at both ends only. */
  function Trim(s: string): (r: string)
  {
    TrimRight(TrimLeft(s))
  }

  /** What Trim keeps neither starts nor ends with white space. */
  lemma TrimEnds(s: string)
    ensures var r := Trim(s);
      r == [] || (!IsTrimSpace(r[0]) && !IsTrimSpace(r[|r| - 1]))
  {
    var l := TrimLeft(s);
    TrimLeftIsSuffix(s);
    TrimRightIsPrefix(l);
    var r := Trim(s);
    if r != [] {
      assert r[0] == l[0];
    }
  }

  /** Trim keeps a contiguous part of its input and drops only white space
      around it. */
  lemma TrimIsInfix(s: string)
    ensures exists i, j ::
      && 0 <= i <= j <= |s| && Trim(s) == s[i..j]
      && (forall k :: 0 <= k < i ==> IsTrimSpace(s[k]))
      && (forall k :: j <= k < |s| ==> IsTrimSpace(s[k]))
  {
    var l := TrimLeft(s);
    TrimLeftIsSuffix(s);
    var r := TrimRight(l);
    TrimRightIsPrefix(l);
    var i := |s| - |l|;
    var j := i + |r|;
    assert r == s[i..j] by {
      assert l == s[i..];
      assert r == l[..|r|];
    }
    forall k | j <= k < |s|
      ensures IsTrimSpace(s[k])
    {
      assert s[k] == l[k - i];
    }
  }

  /** A string that neither starts nor ends with white space is its own trim,
      so trimming twice is trimming once. */
  lemma TrimOfTrimmed(s: string)
    requires s == [] || (!IsTrimSpace(s[0]) && !IsTrimSpace(s[|s| - 1]))
    ensures Trim(s) == s
  {
  }

  /** Removes the trailing copies of `c`. */
  function TrimRightChar(c: char, s: string): (r: string)
    ensures |r| <= |s|
    ensures r == [] || r[|r| - 1] != c
    decreases |s|
  {
    if s != [] && s[|s| - 1] == c then TrimRightChar(c, s[..|s| - 1]) else s
  }

  // ----- explode / implode -----

  /** `implode` with a one-character glue; the inverse of Explode. */
  function Implode(sep: char, parts: seq<string>): (r: string)
    requires |parts| >= 1
  {
    if |parts| == 1 then parts[0] else parts[0] + [sep] + Implode(sep, parts[1..])
  }

  /** `explode` with a one-character separator: the pieces between the
      separators, at least one (`explode(',', '')` is `['']`). */
  function Explode(sep: char, s: string): (parts: seq<string>)
    ensures |parts| >= 1
    ensures forall p <- parts :: sep !in p
    ensures Implode(sep, parts) == s
    decreases |s|
  {
    if s == [] then [""]
    else
      var rest := Explode(sep, s[1..]);
      if s[0] == sep then
        assert ([""] + rest)[1..] == rest;
        [""] + rest
      else
        var parts := [[s[0]] + rest[0]] + rest[1..];
        assert parts[1..] == rest[1..];
        assert s == [s[0]] + s[1..];
        parts
  }

  /** A piece without the separator explodes to itself. */
  lemma {:induction false} ExplodeNoSeparator(sep: char, x: string)
    requires sep !in x
    ensures Explode(sep, x) == [x]
    decreases |x|
  {
    if x != [] {
      ExplodeNoSeparator(sep, x[1..]);
      assert [x[0]] + x[1..] == x;
    }
  }

  /** A separator ends the first piece. */
  lemma {:induction false} ExplodeAtSeparator(sep: char, x: string, y: string)
    requires sep !in x
    ensures Explode(sep, x + [sep] + y) == [x] + Explode(sep, y)
    decreases |x|
  {
    if x == [] {
      assert x + [sep] + y == [sep] + y;
      assert ([sep] + y)[1..] == y;
    } else {
      var s := x + [sep] + y;
      assert s[1..] == x[1..] + [sep] + y;
      ExplodeAtSeparator(sep, x[1..], y);
      assert [x[0]] + x[1..] == x;
    }
  }

  /** Splitting what Implode glued together gives back the pieces, as long as
      no piece holds the separator. */
  lemma {:induction false} ExplodeImplode(sep: char, parts: seq<string>)
    requires |parts| >= 1
    requires forall p <- parts :: sep !in p
    ensures Explode(sep, Implode(sep, parts)) == parts
    decreases |parts|
  {
    if |parts| == 1 {
      ExplodeNoSeparator(sep, parts[0]);
    } else {
      ExplodeAtSeparator(sep, parts[0], Implode(sep, parts[1..]));
      ExplodeImplode(sep, parts[1..]);
      assert [parts[0]] + parts[1..] == parts;
    }
  }

  // ----- str_contains -----

  /** `str_contains(haystack, needle)`; the empty needle is contained in
      every haystack. */
  predicate Contains(haystack: string, needle: string)
    decreases |haystack|
  {
    |needle| <= |haystack| &&
    (haystack[..|needle|] == needle || (|haystack| > 0 && Contains(haystack[1..], needle)))
  }

  /** The needle occurs in the haystack starting at offset `i`. */
  predicate OccursAt(haystack: string, needle: string, i: int)
  {
    0 <= i <= |haystack| - |needle| && haystack[i..i + |needle|] == needle
  }

  /** Contains holds exactly when the needle occurs at some offset. */
  lemma {:induction false} ContainsAt(haystack: string, needle: string)
    ensures Contains(haystack, needle) <==> exists i :: OccursAt(haystack, needle, i)
    decreases |haystack|
  {
    if |needle| <= |haystack| && haystack[..|needle|] == needle {
      assert OccursAt(haystack, needle, 0);
    } else if |needle| <= |haystack| {
      var tail := haystack[1..];
      ContainsAt(tail, needle);
      if i :| OccursAt(haystack, needle, i) {
        assert i != 0;
        assert tail[i - 1..i - 1 + |needle|] == needle;
        assert OccursAt(tail, needle, i - 1);
      }
      if i :| OccursAt(tail, needle, i) {
        assert haystack[i + 1..i + 1 + |needle|] == needle;
        assert OccursAt(haystack, needle, i + 1);
      }
    }
  }

  // ----- pathinfo -----

  /** The part of `s` after its last `c`, or all of `s` when it holds no `c`. */
  function AfterLast(c: char, s: string): (r: string)
    ensures c !in r
    ensures |r| <= |s|
    decreases |s|
  {
    if s == [] then []
    else if s[|s| - 1] == c then []
    else
      var r := AfterLast(c, s[..|s| - 1]);
      r + [s[|s| - 1]]
  }

  /** The base name of a path: trailing slashes are dropped and what follows
      the last remaining `/` is kept. */
  function BaseName(path: string): (r: string)
  {
    AfterLast('/', TrimRightChar('/', path))
  }

  /** `pathinfo($path, PATHINFO_EXTENSION)`: what follows the base name's
      last `.`; a base name without a dot has no extension. */
  function PathExtension(path: string): (ext: string)
    ensures '.' !in ext
  {
    var base := BaseName(path);
    if '.' in base then AfterLast('.', base) else ""
  }

  /** Text after the last `c` grows with anything appended that holds no `c`. */
  lemma {:induction false} AfterLastSuffix(c: char, s: string, t: string)
    requires c !in t
    ensures AfterLast(c, s + t) == AfterLast(c, s) + t
    decreases |t|
  {
    if t == [] {
      assert s + t == s;
    } else {
      var init := t[..|t| - 1];
      assert (s + t)[..|s + t| - 1] == s + init;
      AfterLastSuffix(c, s, init);
      assert t == init + [t[|t| - 1]];
    }
  }

  /** What follows the last `c` is exactly the text after it. */
  lemma AfterLastSeparator(c: char, s: string, t: string)
    requires c !in t
    ensures AfterLast(c, s + [c] + t) == t
  {
    AfterLastSuffix(c, s + [c], t);
  }

  /** The extension of a path that ends in a dot and a name with no dot or
      slash is that name; a path ending in a dot has the empty extension. */
  lemma PathExtensionOfName(stem: string, ext: string)
    requires '.' !in ext && '/' !in ext
    ensures PathExtension(stem + ['.'] + ext) == ext
  {
    var path := stem + ['.'] + ext;
    assert path[|path| - 1] == if ext == [] then '.' else ext[|ext| - 1];
    assert TrimRightChar('/', path) == path;
    assert path == stem + (['.'] + ext);
    AfterLastSuffix('/', stem, ['.'] + ext);
    var base := AfterLast('/', stem) + ['.'] + ext;
    assert AfterLast('/', path) == base;
    assert base[|AfterLast('/', stem)|] == '.';
    AfterLastSeparator('.', AfterLast('/', stem), ext);
  }

  /** AfterLast keeps characters of its input only. */
  lemma {:induction false} AfterLastWithin(c: char, s: string)
    ensures forall x :: x in AfterLast(c, s) ==> x in s
    decreases |s|
  {
    if s != [] && s[|s| - 1] != c {
      AfterLastWithin(c, s[..|s| - 1]);
      assert forall x :: x in s[..|s| - 1] ==> x in s;
    }
  }

  /** A path without any dot has a base name without a dot, hence no
      extension. */
  lemma NoDotNoExtension(path: string)
    requires '.' !in path
    ensures '.' !in BaseName(path) && PathExtension(path) == ""
  {
    AfterLastWithin('/', TrimRightChar('/', path));
    TrimRightCharWithin('/', path);
  }

  /** TrimRightChar keeps characters of its input only. */
  lemma {:induction false} TrimRightCharWithin(c: char, s: string)
    ensures forall x :: x in TrimRightChar(c, s) ==> x in s
    decreases |s|
  {
    if s != [] && s[|s| - 1] == c {
      TrimRightCharWithin(c, s[..|s| - 1]);
      assert forall x :: x in s[..|s| - 1] ==> x in s;
    }
  }
}
