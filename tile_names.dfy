/** Tile file names.  A tile image is named `<anything>_<lat>_<lon>.png`; the
    centre coordinates are the last two underscore-separated tokens once every
    `.png` has been deleted.  Only names ending in `.png` are tiles.

    The three string operations follow Python's semantics: `endswith`,
    `replace(pat, "")` (a left-to-right scan deleting non-overlapping
    occurrences) and `split(sep)` with an explicit separator (empty tokens
    are kept, and the result always has at least one token).  The tokens stay
    strings here; turning them into numbers is done by the caller. */
module TileNames {
  import opened Wrappers

  /** The extension of tile images. */
  const PngExt: string := ".png"

  /** The separator between the tokens of a tile name. */
  const Sep: char := '_'

  /** `s.endswith(suffix)`. */
  predicate EndsWith(s: string, suffix: string)
  {
    |suffix| <= |s| && s[|s| - |suffix|..] == suffix
  }

  /** The filter of the tile loop: only `.png` files are processed. */
  predicate IsTileImage(name: string): (b: bool)
    ensures b <==> |name| >= |PngExt| && name == name[..|name| - |PngExt|] + PngExt
  {
    EndsWith(name, PngExt)
  }

  /** `pat` occurs in `s` starting at index i. */
  predicate OccursAt(s: string, pat: string, i: nat)
  {
    i + |pat| <= |s| && s[i..i + |pat|] == pat
  }

  /** `s.replace(pat, "")`: scanning from the left, each occurrence of `pat`
      is deleted and the scan resumes after it. */
  function RemoveAll(s: string, pat: string): (r: string)
    requires |pat| > 0
    ensures |r| <= |s|
    decreases |s|
  {
    if |s| < |pat| then s
    else if s[..|pat|] == pat then RemoveAll(s[|pat|..], pat)
    else [s[0]] + RemoveAll(s[1..], pat)
  }

  /** Number of occurrences of the character c in s. */
  function Count(s: string, c: char): nat
  {
    if s == [] then 0 else (if s[0] == c then 1 else 0) + Count(s[1..], c)
  }

  /** `s.split(sep)`: the maximal runs between separators, empty ones included. */
  function Split(s: string, sep: char): (parts: seq<string>)
    ensures |parts| >= 1
  {
    if s == [] then [[]]
    else
      var rest := Split(s[1..], sep);
      if s[0] == sep then [[]] + rest
      else [[s[0]] + rest[0]] + rest[1..]
  }

  /** `sep.join(parts)`, the reference that Split inverts. */
  function Join(parts: seq<string>, sep: char): string
    requires |parts| >= 1
  {
    if |parts| == 1 then parts[0] else parts[0] + [sep] + Join(parts[1..], sep)
  }

  /** The tile name with every `.png` deleted. */
  function Cleaned(name: string): string
  {
    RemoveAll(name, PngExt)
  }

  /** The two centre tokens of a tile name, latitude first. */
  datatype CentreTokens = CentreTokens(lat: string, lon: string)

  /** Why a name yields no centre: fewer than two tokens, so the token
      before last does not exist. */
  datatype ParseError = IndexError

  /** `parse_coords_from_name`: the last two tokens of the cleaned name. */
  function ParseCoordsFromName(name: string): (r: Result<CentreTokens, ParseError>)
    ensures r.Err? <==> Sep !in name
    ensures r.Ok? ==> Sep !in r.value.lat && Sep !in r.value.lon
  {
    RemoveAllKeepsCount(name, PngExt, Sep);
    CountZeroIffAbsent(name, Sep);
    SplitLength(Cleaned(name), Sep);
    SplitTokensHaveNoSep(Cleaned(name), Sep);
    var parts := Split(Cleaned(name), Sep);
    if |parts| < 2 then Err(IndexError)
    else Ok(CentreTokens(parts[|parts| - 2], parts[|parts| - 1]))
  }

  // ---------------------------------------------------------------------
  // Counting and splitting

  lemma {:induction false} CountZeroIffAbsent(s: string, c: char)
    ensures Count(s, c) == 0 <==> c !in s
  {
    if s != [] {
      CountZeroIffAbsent(s[1..], c);
      assert s == [s[0]] + s[1..];
    }
  }

  lemma {:induction false} CountAppend(a: string, b: string, c: char)
    ensures Count(a + b, c) == Count(a, c) + Count(b, c)
  {
    if a == [] {
      assert a + b == b;
    } else {
      assert (a + b)[0] == a[0];
      assert (a + b)[1..] == a[1..] + b;
      CountAppend(a[1..], b, c);
    }
  }

  /** A split yields one more token than there are separators. */
  lemma {:induction false} SplitLength(s: string, sep: char)
    ensures |Split(s, sep)| == Count(s, sep) + 1
  {
    if s != [] {
      SplitLength(s[1..], sep);
    }
  }

  /** No token of a split contains the separator. */
  lemma {:induction false} SplitTokensHaveNoSep(s: string, sep: char)
    ensures forall i :: 0 <= i < |Split(s, sep)| ==> sep !in Split(s, sep)[i]
  {
    if s != [] {
      SplitTokensHaveNoSep(s[1..], sep);
      var rest := Split(s[1..], sep);
      if s[0] != sep {
        assert sep !in rest[0];
        assert sep !in [s[0]] + rest[0];
      }
    }
  }

  /** Joining the tokens of a split gives back the string. */
  lemma {:induction false} JoinSplit(s: string, sep: char)
    ensures Join(Split(s, sep), sep) == s
  {
    if s != [] {
      JoinSplit(s[1..], sep);
      var rest := Split(s[1..], sep);
      if s[0] == sep {
        assert Split(s, sep) == [[]] + rest;
        assert ([[]] + rest)[1..] == rest;
      } else {
        var parts := Split(s, sep);
        assert parts == [[s[0]] + rest[0]] + rest[1..];
        if |rest| > 1 {
          assert parts[1..] == rest[1..];
          assert Join(rest, sep) == rest[0] + [sep] + Join(rest[1..], sep);
        }
      }
    }
  }

  /** A string without the separator is a single token. */
  lemma {:induction false} SplitWithoutSep(s: string, sep: char)
    requires sep !in s
    ensures Split(s, sep) == [s]
  {
    if s != [] {
      SplitWithoutSep(s[1..], sep);
      assert s == [s[0]] + s[1..];
    }
  }

  /** One step of Split on a non-empty string. */
  lemma {:induction false} SplitCons(s: string, sep: char)
    requires s != []
    ensures var rest := Split(s[1..], sep);
            Split(s, sep) == if s[0] == sep then [[]] + rest else [[s[0]] + rest[0]] + rest[1..]
  {
  }

  /** Splitting at one separator splits both sides independently. */
  lemma {:induction false} SplitAtSep(p: string, q: string, sep: char)
    ensures Split(p + [sep] + q, sep) == Split(p, sep) + Split(q, sep)
  {
    var s := p + [sep] + q;
    SplitCons(s, sep);
    if p == [] {
      assert s[0] == sep && s[1..] == q;
    } else {
      assert s[0] == p[0];
      assert s[1..] == p[1..] + [sep] + q;
      SplitAtSep(p[1..], q, sep);
      SplitCons(p, sep);
      var restP := Split(p[1..], sep);
      var restQ := Split(q, sep);
      if p[0] != sep {
        assert (restP + restQ)[0] == restP[0];
        assert (restP + restQ)[1..] == restP[1..] + restQ;
      }
    }
  }

  /** Joining separator-free tokens and splitting again gives the tokens back. */
  lemma {:induction false} SplitJoin(parts: seq<string>, sep: char)
    requires |parts| >= 1
    requires forall i :: 0 <= i < |parts| ==> sep !in parts[i]
    ensures Split(Join(parts, sep), sep) == parts
  {
    if |parts| == 1 {
      SplitWithoutSep(parts[0], sep);
    } else {
      SplitJoin(parts[1..], sep);
      SplitWithoutSep(parts[0], sep);
      SplitAtSep(parts[0], Join(parts[1..], sep), sep);
      assert parts == [parts[0]] + parts[1..];
    }
  }

  /** Joining a concatenation of token lists puts one separator between them. */
  lemma {:induction false} JoinAppend(xs: seq<string>, ys: seq<string>, sep: char)
    requires |xs| >= 1 && |ys| >= 1
    ensures Join(xs + ys, sep) == Join(xs, sep) + [sep] + Join(ys, sep)
  {
    if |xs| > 1 {
      JoinAppend(xs[1..], ys, sep);
      assert (xs + ys)[1..] == xs[1..] + ys;
    } else {
      assert (xs + ys)[1..] == ys;
    }
  }

  // ---------------------------------------------------------------------
  // Deleting `.png`

  /** A string with no occurrence of the pattern is left unchanged. */
  lemma {:induction false} RemoveAllWithoutMatch(s: string, pat: string)
    requires |pat| > 0
    requires forall i: nat :: !OccursAt(s, pat, i)
    ensures RemoveAll(s, pat) == s
    decreases |s|
  {
    if |s| >= |pat| {
      assert !OccursAt(s, pat, 0);
      forall i: nat ensures !OccursAt(s[1..], pat, i) {
        assert !OccursAt(s, pat, i + 1);
        if i + |pat| <= |s[1..]| {
          assert s[1..][i..i + |pat|] == s[i + 1..i + 1 + |pat|];
        }
      }
      RemoveAllWithoutMatch(s[1..], pat);
      assert s == [s[0]] + s[1..];
    }
  }

  /** Deleting a pattern that does not contain c keeps every c. */
  lemma {:induction false} RemoveAllKeepsCount(s: string, pat: string, c: char)
    requires |pat| > 0 && c !in pat
    ensures Count(RemoveAll(s, pat), c) == Count(s, c)
    decreases |s|
  {
    if |s| < |pat| {
    } else if s[..|pat|] == pat {
      RemoveAllKeepsCount(s[|pat|..], pat, c);
      assert s == pat + s[|pat|..];
      CountAppend(pat, s[|pat|..], c);
      CountZeroIffAbsent(pat, c);
    } else {
      RemoveAllKeepsCount(s[1..], pat, c);
    }
  }

  /** A string shorter than the pattern holds no occurrence of it. */
  lemma {:induction false} RemoveAllShort(s: string, pat: string)
    requires |pat| > 0 && |s| < |pat|
    ensures RemoveAll(s, pat) == s
  {
  }

  /** RemoveAll at a position where the pattern starts. */
  lemma {:induction false} RemoveAllAtMatch(s: string, pat: string)
    requires |pat| > 0 && |pat| <= |s| && s[..|pat|] == pat
    ensures RemoveAll(s, pat) == RemoveAll(s[|pat|..], pat)
  {
  }

  /** RemoveAll at a position where the pattern does not start. */
  lemma {:induction false} RemoveAllAtMismatch(s: string, pat: string)
    requires |pat| > 0 && |pat| <= |s| && s[..|pat|] != pat
    ensures RemoveAll(s, pat) == [s[0]] + RemoveAll(s[1..], pat)
  {
  }

  /** A separator absent from the pattern is a barrier: no deleted occurrence
      straddles it, so each side is cleaned on its own. */
  lemma {:induction false} RemoveAllAtSep(p: string, q: string, pat: string, sep: char)
    requires |pat| > 0 && sep !in pat
    ensures RemoveAll(p + [sep] + q, pat) == RemoveAll(p, pat) + [sep] + RemoveAll(q, pat)
    decreases |p|
  {
    var s := p + [sep] + q;
    var n := |pat|;
    if |s| < n {
      RemoveAllShort(s, pat);
      RemoveAllShort(p, pat);
      RemoveAllShort(q, pat);
    } else if s[..n] == pat {
      RemoveAllAtSepMatch(p, q, pat, sep);
    } else if p == [] {
      assert s == [sep] + q;
      assert s[1..] == q;
      RemoveAllAtMismatch(s, pat);
    } else {
      RemoveAllAtSep(p[1..], q, pat, sep);
      RemoveAllAtSepMismatch(p, q, pat, sep);
    }
  }

  /** The case of RemoveAllAtSep where p is not empty and the pattern does
      not start the string: one character of p is kept, given the claim for
      the rest of p. */
  lemma {:induction false} RemoveAllAtSepMismatch(p: string, q: string, pat: string, sep: char)
    requires |pat| > 0 && p != []
    requires |pat| <= |p| + 1 + |q| && (p + [sep] + q)[..|pat|] != pat
    requires RemoveAll(p[1..] + [sep] + q, pat) == RemoveAll(p[1..], pat) + [sep] + RemoveAll(q, pat)
    ensures RemoveAll(p + [sep] + q, pat) == RemoveAll(p, pat) + [sep] + RemoveAll(q, pat)
  {
    RemoveAllSkipFirst(p, q, pat, sep);
    SpliceFirst(p[0], RemoveAll(p[1..] + [sep] + q, pat), RemoveAll(p[1..], pat), RemoveAll(q, pat), sep);
  }

  /** Putting a character in front of x + [sep] + y puts it in front of x. */
  lemma {:induction false} SpliceFirst(c: char, mid: string, x: string, y: string, sep: char)
    requires mid == x + [sep] + y
    ensures [c] + mid == [c] + x + [sep] + y
  {
  }

  /** Where the pattern does not start p + [sep] + q, with p not empty, the
      first character of p is kept both there and when p is cleaned alone. */
  lemma {:induction false} RemoveAllSkipFirst(p: string, q: string, pat: string, sep: char)
    requires |pat| > 0 && p != []
    requires |pat| <= |p| + 1 + |q| && (p + [sep] + q)[..|pat|] != pat
    ensures RemoveAll(p + [sep] + q, pat) == [p[0]] + RemoveAll(p[1..] + [sep] + q, pat)
    ensures RemoveAll(p, pat) == [p[0]] + RemoveAll(p[1..], pat)
  {
    var s := p + [sep] + q;
    assert s[0] == p[0] && s[1..] == p[1..] + [sep] + q;
    RemoveAllAtMismatch(s, pat);
    assert p <= s;
    RemoveAllFirstKept(p, s, pat);
  }

  /** When the pattern does not start p + rest, the first character of p
      is kept when p is cleaned on its own. */
  lemma {:induction false} RemoveAllFirstKept(p: string, s: string, pat: string)
    requires |pat| > 0 && p != [] && |pat| <= |s| && p <= s && s[..|pat|] != pat
    ensures RemoveAll(p, pat) == [p[0]] + RemoveAll(p[1..], pat)
  {
    var n := |pat|;
    if |p| >= n {
      assert p[..n] == s[..n];
      RemoveAllAtMismatch(p, pat);
    } else {
      RemoveAllShort(p, pat);
      RemoveAllShort(p[1..], pat);
      assert p == [p[0]] + p[1..];
    }
  }

  /** The case of RemoveAllAtSep where the pattern starts the string: the
      match lies inside p, because the separator is not part of it. */
  lemma {:induction false} RemoveAllAtSepMatch(p: string, q: string, pat: string, sep: char)
    requires |pat| > 0 && sep !in pat
    requires |pat| <= |p| + 1 + |q| && (p + [sep] + q)[..|pat|] == pat
    ensures RemoveAll(p + [sep] + q, pat) == RemoveAll(p, pat) + [sep] + RemoveAll(q, pat)
    decreases |p|, 0
  {
    var s := p + [sep] + q;
    var n := |pat|;
    assert forall i :: 0 <= i < n ==> s[i] == pat[i] != sep;
    assert s[|p|] == sep;
    assert p[..n] == s[..n];
    assert s[n..] == p[n..] + [sep] + q;
    RemoveAllAtSep(p[n..], q, pat, sep);
    RemoveAllAtMatch(s, pat);
    RemoveAllAtMatch(p, pat);
  }

  /** Each token cleaned on its own. */
  function RemoveAllEach(parts: seq<string>, pat: string): (r: seq<string>)
    requires |pat| > 0
    ensures |r| == |parts|
    ensures forall i :: 0 <= i < |parts| ==> r[i] == RemoveAll(parts[i], pat)
  {
    if parts == [] then [] else [RemoveAll(parts[0], pat)] + RemoveAllEach(parts[1..], pat)
  }

  /** Cleaning then splitting equals splitting then cleaning every token. */
  lemma {:induction false} SplitRemoveAll(s: string, pat: string, sep: char)
    requires |pat| > 0 && sep !in pat
    ensures Split(RemoveAll(s, pat), sep) == RemoveAllEach(Split(s, sep), pat)
    decreases |s|
  {
    if sep !in s {
      CountZeroIffAbsent(s, sep);
      RemoveAllKeepsCount(s, pat, sep);
      CountZeroIffAbsent(RemoveAll(s, pat), sep);
      SplitWithoutSep(s, sep);
      SplitWithoutSep(RemoveAll(s, pat), sep);
    } else {
      var i :| 0 <= i < |s| && s[i] == sep;
      var j := FirstIndex(s, sep);
      var p, q := s[..j], s[j + 1..];
      assert s == p + [sep] + q;
      SplitWithoutSep(p, sep);
      SplitAtSep(p, q, sep);
      RemoveAllAtSep(p, q, pat, sep);
      SplitRemoveAll(q, pat, sep);
      RemoveAllKeepsCount(p, pat, sep);
      CountZeroIffAbsent(p, sep);
      CountZeroIffAbsent(RemoveAll(p, pat), sep);
      SplitWithoutSep(RemoveAll(p, pat), sep);
      SplitAtSep(RemoveAll(p, pat), RemoveAll(q, pat), sep);
    }
  }

  /** The first position of c in s. */
  function FirstIndex(s: string, c: char): (j: nat)
    requires c in s
    ensures j < |s| && s[j] == c && c !in s[..j]
  {
    if s[0] == c then 0
    else
      assert c in s[1..] by { assert s == [s[0]] + s[1..]; }
      var j := 1 + FirstIndex(s[1..], c);
      assert s[..j] == [s[0]] + s[1..][..j - 1];
      j
  }

  // ---------------------------------------------------------------------
  // Parsing the centre

  /** Parsing fails exactly when the name has no underscore. */
  lemma {:induction false} ParseFailsIffNoSeparator(name: string)
    ensures ParseCoordsFromName(name).Err? <==> Sep !in name
  {
    RemoveAllKeepsCount(name, PngExt, Sep);
    CountZeroIffAbsent(name, Sep);
    SplitLength(Cleaned(name), Sep);
  }

  /** A successful parse returns two separator-free tokens that end the
      cleaned name as `<lat>_<lon>`, preceded by an underscore or by nothing. */
  lemma {:induction false} ParseCoordsSound(name: string)
    requires ParseCoordsFromName(name).Ok?
    ensures var c := ParseCoordsFromName(name).value;
            var cleaned := Cleaned(name);
            && Sep !in c.lat && Sep !in c.lon
            && EndsWith(cleaned, c.lat + [Sep] + c.lon)
            && (|cleaned| == |c.lat| + 1 + |c.lon| || cleaned[|cleaned| - |c.lat| - |c.lon| - 2] == Sep)
  {
    var cleaned := Cleaned(name);
    var parts := Split(cleaned, Sep);
    var n := |parts|;
    var a, b := parts[n - 2], parts[n - 1];
    SplitTokensHaveNoSep(cleaned, Sep);
    JoinSplit(cleaned, Sep);
    var tail := a + [Sep] + b;
    assert Join([a, b], Sep) == tail;
    if n == 2 {
      assert parts == [a, b];
      assert cleaned == tail;
      assert cleaned[|cleaned| - |tail|..] == tail;
    } else {
      var init := parts[..n - 2];
      assert parts == init + [a, b];
      JoinAppend(init, [a, b], Sep);
      var front := Join(init, Sep) + [Sep];
      assert cleaned == front + tail;
      assert cleaned[|cleaned| - |tail|..] == tail;
      assert cleaned[|cleaned| - |tail| - 1] == front[|front| - 1] == Sep;
    }
  }

  /** Two separator-free tokens joined by the separator split back into them. */
  lemma {:induction false} SplitTwoTokens(lat: string, lon: string, sep: char)
    requires sep !in lat && sep !in lon
    ensures Split(lat + [sep] + lon, sep) == [lat, lon]
  {
    SplitWithoutSep(lat, sep);
    SplitWithoutSep(lon, sep);
    SplitAtSep(lat, lon, sep);
  }

  /** A string of the form `[prefix_]<lat>_<lon>`, with separator-free
      lat and lon, splits into tokens whose last two are lat and lon. */
  lemma {:induction false} SplitLastTwo(s: string, prefix: string, lat: string, lon: string, sep: char)
    requires sep !in lat && sep !in lon
    requires prefix == [] || prefix[|prefix| - 1] == sep
    requires s == prefix + lat + [sep] + lon
    ensures var parts := Split(s, sep);
            |parts| >= 2 && parts[|parts| - 2] == lat && parts[|parts| - 1] == lon
  {
    var tail := lat + [sep] + lon;
    SplitTwoTokens(lat, lon, sep);
    if prefix == [] {
      assert s == tail;
    } else {
      var p := prefix[..|prefix| - 1];
      assert s == p + [sep] + tail by {
        assert prefix == p + [sep];
      }
      SplitAtSep(p, tail, sep);
    }
  }

  /** Conversely, a cleaned name of that shape parses to exactly those tokens. */
  lemma {:induction false} ParseCoordsComplete(name: string, prefix: string, lat: string, lon: string)
    requires Sep !in lat && Sep !in lon
    requires prefix == [] || prefix[|prefix| - 1] == Sep
    requires Cleaned(name) == prefix + lat + [Sep] + lon
    ensures ParseCoordsFromName(name) == Ok(CentreTokens(lat, lon))
  {
    SplitLastTwo(Cleaned(name), prefix, lat, lon, Sep);
  }

  /** Splitting a string with a separator, then cleaning, keeps the number
      of tokens and cleans the last two of them. */
  lemma {:induction false} SplitRemoveAllLastTwo(s: string, pat: string, sep: char)
    requires |pat| > 0 && sep !in pat && sep in s
    ensures var parts := Split(s, sep);
            var cparts := Split(RemoveAll(s, pat), sep);
            var n := |parts|;
            n >= 2 && |cparts| == n
            && cparts[n - 2] == RemoveAll(parts[n - 2], pat) && cparts[n - 1] == RemoveAll(parts[n - 1], pat)
  {
    CountZeroIffAbsent(s, sep);
    SplitLength(s, sep);
    SplitRemoveAll(s, pat, sep);
  }

  /** The tokens are those of the raw name with `.png` deleted from each. */
  lemma {:induction false} ParseCoordsTokens(name: string)
    requires Sep in name
    ensures var parts := Split(name, Sep);
            var n := |parts|;
            n >= 2 &&
            ParseCoordsFromName(name)
              == Ok(CentreTokens(RemoveAll(parts[n - 2], PngExt), RemoveAll(parts[n - 1], PngExt)))
  {
    assert Sep !in PngExt;
    SplitRemoveAllLastTwo(name, PngExt, Sep);
  }

  /** A string missing some character of the pattern holds no occurrence
      of it and is left unchanged. */
  lemma {:induction false} RemoveAllWithoutChar(s: string, pat: string, k: nat)
    requires k < |pat| && pat[k] !in s
    ensures RemoveAll(s, pat) == s
    decreases |s|
  {
    if |s| >= |pat| {
      assert s[..|pat|][k] == s[k];
      RemoveAllAtMismatch(s, pat);
      assert s == [s[0]] + s[1..];
      RemoveAllWithoutChar(s[1..], pat, k);
    }
  }

  /** A token missing the pattern's second character, followed by the
      pattern, loses exactly that pattern (when the pattern's first two
      characters differ, no occurrence can start inside the token). */
  lemma {:induction false} RemoveTrailingPattern(t: string, pat: string)
    requires |pat| >= 2 && pat[0] != pat[1] && pat[1] !in t
    ensures RemoveAll(t + pat, pat) == t
  {
    var s := t + pat;
    if t == [] {
      assert s == pat && s[|pat|..] == [];
      RemoveAllAtMatch(s, pat);
    } else {
      assert s[..|pat|][1] == s[1] != pat[1];
      RemoveAllAtMismatch(s, pat);
      assert s[1..] == t[1..] + pat;
      RemoveTrailingPattern(t[1..], pat);
      assert t == [t[0]] + t[1..];
    }
  }

  /** The file name the acquisition scripts give a tile centred at (lat, lon). */
  function TileFileName(prefix: string, lat: string, lon: string): string
  {
    prefix + [Sep] + lat + [Sep] + lon + PngExt
  }

  /** Cleaning `<lat>_<lon><pat>` drops just the trailing pattern. */
  lemma {:induction false} RemoveAllCentrePattern(lat: string, lon: string, pat: string, sep: char)
    requires |pat| >= 2 && pat[0] != pat[1] && sep !in pat
    requires pat[1] !in lat && pat[1] !in lon
    ensures RemoveAll(lat + [sep] + (lon + pat), pat) == lat + [sep] + lon
  {
    RemoveAllAtSep(lat, lon + pat, pat, sep);
    RemoveAllWithoutChar(lat, pat, 1);
    RemoveTrailingPattern(lon, pat);
  }

  /** Cleaning `<prefix>_<lat>_<lon><pat>` cleans the prefix and drops the
      trailing pattern. */
  lemma {:induction false} RemoveAllNamePattern(prefix: string, lat: string, lon: string, pat: string, sep: char)
    requires |pat| >= 2 && pat[0] != pat[1] && sep !in pat
    requires pat[1] !in lat && pat[1] !in lon
    ensures RemoveAll(prefix + [sep] + lat + [sep] + lon + pat, pat)
            == RemoveAll(prefix, pat) + [sep] + lat + [sep] + lon
  {
    var rest := lat + [sep] + (lon + pat);
    assert prefix + [sep] + lat + [sep] + lon + pat == prefix + [sep] + rest;
    RemoveAllAtSep(prefix, rest, pat, sep);
    RemoveAllCentrePattern(lat, lon, pat, sep);
    var front := RemoveAll(prefix, pat) + [sep];
    assert front + (lat + [sep] + lon) == front + lat + [sep] + lon;
  }

  /** Cleaning a tile file name cleans the prefix and drops the extension. */
  lemma {:induction false} CleanedTileFileName(prefix: string, lat: string, lon: string)
    requires 'p' !in lat && 'p' !in lon
    ensures Cleaned(TileFileName(prefix, lat, lon)) == RemoveAll(prefix, PngExt) + [Sep] + lat + [Sep] + lon
  {
    assert PngExt[0] == '.' && PngExt[1] == 'p' && Sep !in PngExt;
    RemoveAllNamePattern(prefix, lat, lon, PngExt, Sep);
  }

  /** Round trip: a tile file name parses back to the centre tokens it was
      built from, whatever the prefix, as long as the tokens hold neither an
      underscore nor the letter p (decimal numerals hold neither). */
  lemma {:induction false} TileFileNameRoundTrip(prefix: string, lat: string, lon: string)
    requires Sep !in lat && Sep !in lon && 'p' !in lat && 'p' !in lon
    ensures IsTileImage(TileFileName(prefix, lat, lon))
    ensures ParseCoordsFromName(TileFileName(prefix, lat, lon)) == Ok(CentreTokens(lat, lon))
  {
    var name := TileFileName(prefix, lat, lon);
    assert name[|name| - 4..] == PngExt;
    CleanedTileFileName(prefix, lat, lon);
    var front := RemoveAll(prefix, PngExt) + [Sep];
    ParseCoordsComplete(name, front, lat, lon);
  }

  /** A name in the acquisition scripts' format, `rooftop_example_<lat>_<lon>.png`. */
  lemma {:induction false} ParseExampleName(name: string)
    requires name == "rooftop_example_12.9716_77.5946.png"
    ensures ParseCoordsFromName(name) == Ok(CentreTokens("12.9716", "77.5946"))
  {
    assert name == TileFileName("rooftop_example", "12.9716", "77.5946");
    TileFileNameRoundTrip("rooftop_example", "12.9716", "77.5946");
  }
}
