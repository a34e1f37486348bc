/**
  The string side of the convert script's tile source: the `{x}`, `{y}`,
  `{z}` placeholders filled by `fetch_tile`, the `file:///` stripping for a
  local source, and the `file:///` prefix `main` puts in front of any
  source that does not start with `http`.
*/
module TileSource {

  // ---------------------------------------------------------------------------
  // Python string operations
  // ---------------------------------------------------------------------------

  /** Python's `q in s`: `q` occurs somewhere in `s`. */
  predicate Contains(s: string, q: string)
    decreases |s|
  {
    q <= s || (|s| > 0 && Contains(s[1..], q))
  }

  /**
    Python's `s.replace(pat, rep)`: scan left to right; at each position
    where `pat` begins, emit `rep` and continue after the occurrence,
    otherwise copy one character.
  */
  function Replace(s: string, pat: string, rep: string): string
    requires |pat| > 0
    decreases |s|
  {
    if |s| == 0 then []
    else if pat <= s then rep + Replace(s[|pat|..], pat, rep)
    else [s[0]] + Replace(s[1..], pat, rep)
  }

  /** A character `str` of an integer may produce. */
  predicate DecimalChar(c: char)
  {
    c == '-' || '0' <= c <= '9'
  }

  function Digit(d: nat): (c: char)
    requires d < 10
    ensures '0' <= c <= '9'
  {
    (d + '0' as int) as char
  }

  /** `str(n)` for a natural number: its decimal digits, most significant first. */
  function NatToDecimal(n: nat): (r: string)
    ensures |r| > 0
    ensures forall i :: 0 <= i < |r| ==> '0' <= r[i] <= '9'
    ensures r[0] == '0' ==> r == "0"
  {
    if n < 10 then [Digit(n)] else NatToDecimal(n / 10) + [Digit(n % 10)]
  }

  /** `str(i)` for an integer: a minus sign before the digits of a negative number. */
  function IntToDecimal(i: int): (r: string)
    ensures |r| > 0
    ensures forall k :: 0 <= k < |r| ==> DecimalChar(r[k])
    ensures (r[0] == '-') == (i < 0)
  {
    if i < 0 then "-" + NatToDecimal(-i) else NatToDecimal(i)
  }

  /** The value of a string of decimal digits. */
  function ParseNat(s: string): nat
  {
    if |s| == 0 then 0
    else
      var d := s[|s| - 1] as int - '0' as int;
      ParseNat(s[..|s| - 1]) * 10 + (if 0 <= d < 10 then d else 0)
  }

  /** The value of an optionally signed decimal string. */
  function ParseInt(s: string): int
  {
    if |s| > 0 && s[0] == '-' then -(ParseNat(s[1..]) as int) else ParseNat(s)
  }

  // ---------------------------------------------------------------------------
  // The script's templating
  // ---------------------------------------------------------------------------

  /** The chain of three `replace` calls at the top of `fetch_tile`. */
  function Substitute(source: string, x: int, y: int, z: int): string
  {
    Replace(Replace(Replace(source, "{x}", IntToDecimal(x)), "{y}", IntToDecimal(y)), "{z}", IntToDecimal(z))
  }

  /** What `fetch_tile` hands back: a local file path, or a URL downloaded to a temporary path. */
  datatype TileFetch = LocalFile(path: string) | Downloaded(url: string, path: string)

  /**
    `fetch_tile` without its I/O: a source not starting with `http` is a
    file name with every `file:///` removed; otherwise the URL is fetched
    into `<tempDir>/<x>_<y>_<z>.png`.
  */
  function FetchTile(x: int, y: int, z: int, source: string, tempDir: string): TileFetch
  {
    var url := Substitute(source, x, y, z);
    if !("http" <= source) then LocalFile(Replace(url, "file:///", ""))
    else Downloaded(url, TempPath(x, y, z, tempDir))
  }

  /** `main`'s treatment of the positional tile-source argument. */
  function TileSourceArgument(arg: string): string
  {
    if "http" <= arg then arg else "file:///" + arg
  }

  // ---------------------------------------------------------------------------
  // Properties of the decimal strings
  // ---------------------------------------------------------------------------

  /** Parsing the decimal string of a natural number gives the number back. */
  lemma {:induction false} NatDecimalRoundTrip(n: nat)
    ensures ParseNat(NatToDecimal(n)) == n
  {
    if n >= 10 {
      var init := NatToDecimal(n / 10);
      var s := init + [Digit(n % 10)];
      assert s[..|s| - 1] == init;
      NatDecimalRoundTrip(n / 10);
    }
  }

  /** Parsing `str(i)` gives `i` back, for negative numbers too. */
  lemma IntDecimalRoundTrip(i: int)
    ensures ParseInt(IntToDecimal(i)) == i
  {
    if i < 0 {
      var s := "-" + NatToDecimal(-i);
      assert s[1..] == NatToDecimal(-i);
      NatDecimalRoundTrip(-i);
    } else {
      NatDecimalRoundTrip(i);
    }
  }

  // ---------------------------------------------------------------------------
  // Properties of `Contains` and `Replace`
  // ---------------------------------------------------------------------------

  /** An occurrence in a suffix is an occurrence in the whole string. */
  lemma {:induction false} ContainsSuffix(s: string, k: nat, q: string)
    requires k <= |s| && Contains(s[k..], q)
    ensures Contains(s, q)
  {
    if k > 0 {
      assert s[1..][k - 1..] == s[k..];
      ContainsSuffix(s[1..], k - 1, q);
    }
  }

  /** An occurrence of `q` in `a + b` lies in `b` when `a` has no character that can begin `q`. */
  lemma {:induction false} ContainsAfterPrefix(a: string, b: string, q: string)
    requires |q| > 0 && q[0] !in a && Contains(a + b, q)
    ensures Contains(b, q)
  {
    if |a| > 0 {
      assert (a + b)[0] == a[0];
      assert (a + b)[1..] == a[1..] + b;
      ContainsAfterPrefix(a[1..], b, q);
    } else {
      assert a + b == b;
    }
  }

  /** A string with no occurrence of the pattern is left as it is. */
  lemma {:induction false} ReplaceWithoutOccurrence(s: string, pat: string, rep: string)
    requires |pat| > 0 && !Contains(s, pat)
    ensures Replace(s, pat, rep) == s
    decreases |s|
  {
    if |s| > 0 {
      ReplaceWithoutOccurrence(s[1..], pat, rep);
      assert [s[0]] + s[1..] == s;
    }
  }

  /** A prefix without the pattern's first character is copied unchanged. */
  lemma {:induction false} ReplaceAfterPrefix(p: string, s: string, pat: string, rep: string)
    requires |pat| > 0 && pat[0] !in p
    ensures Replace(p + s, pat, rep) == p + Replace(s, pat, rep)
  {
    if |p| > 0 {
      assert !(pat <= p + s) by {
        assert (p + s)[0] == p[0];
      }
      assert (p + s)[1..] == p[1..] + s;
      ReplaceAfterPrefix(p[1..], s, pat, rep);
    } else {
      assert p + s == s;
    }
  }

  /**
    A placeholder after a prefix free of its first character is filled:
    `(a + pat + b).replace(pat, rep) == a + rep + b.replace(pat, rep)`.
  */
  lemma ReplaceFillsFirst(a: string, b: string, pat: string, rep: string)
    requires |pat| > 0 && pat[0] !in a
    ensures Replace(a + pat + b, pat, rep) == a + rep + Replace(b, pat, rep)
  {
    ReplaceAfterPrefix(a, pat + b, pat, rep);
    assert a + pat + b == a + (pat + b);
    assert (pat + b)[|pat|..] == b;
  }

  /** Two non-empty prefixes of the same string start with the same character. */
  lemma PrefixHead(q: string, a: string, r: string)
    ensures |q| > 0 && |a| > 0 && a <= r && q <= r ==> q[0] == a[0]
  {
  }

  /**
    A prefix of the result made of characters that `rep` does not use
    comes from copied characters, so it is a prefix of the input too.
  */
  lemma {:induction false} ReplacedPrefix(s: string, pat: string, rep: string, q: string)
    requires |pat| > 0 && |rep| > 0
    requires forall i :: 0 <= i < |q| ==> q[i] !in rep
    requires q <= Replace(s, pat, rep)
    ensures q <= s
    decreases |s|
  {
    var r := Replace(s, pat, rep);
    if |s| > 0 && |q| > 0 {
      if pat <= s {
        PrefixHead(q, rep, r);
        assert false;
      }
      assert q[1..] <= Replace(s[1..], pat, rep);
      ReplacedPrefix(s[1..], pat, rep, q[1..]);
    }
  }

  /**
    With a non-empty replacement that shares no character with the pattern,
    no occurrence of the pattern survives (with an empty replacement two
    pieces can close up into a new occurrence).
  */
  lemma {:induction false} ReplaceRemovesAll(s: string, pat: string, rep: string)
    requires |pat| > 0 && |rep| > 0
    requires forall i :: 0 <= i < |pat| ==> pat[i] !in rep
    ensures !Contains(Replace(s, pat, rep), pat)
    decreases |s|
  {
    if |s| > 0 {
      var r := Replace(s, pat, rep);
      if pat <= s {
        var rest := Replace(s[|pat|..], pat, rep);
        ReplaceRemovesAll(s[|pat|..], pat, rep);
        if Contains(rep + rest, pat) {
          ContainsAfterPrefix(rep, rest, pat);
        }
      } else {
        ReplaceRemovesAll(s[1..], pat, rep);
        if pat <= r {
          ReplacedPrefix(s, pat, rep, pat);
        }
        assert r[1..] == Replace(s[1..], pat, rep);
      }
    }
  }

  /**
    Replacing one pattern does not create another: a string `q` none of
    whose characters the non-empty replacement uses stays absent.
  */
  lemma {:induction false} ReplaceKeepsAbsent(s: string, pat: string, rep: string, q: string)
    requires |pat| > 0 && |rep| > 0 && |q| > 0
    requires forall i :: 0 <= i < |q| ==> q[i] !in rep
    requires !Contains(s, q)
    ensures !Contains(Replace(s, pat, rep), q)
    decreases |s|
  {
    if |s| > 0 {
      var r := Replace(s, pat, rep);
      if pat <= s {
        var rest := Replace(s[|pat|..], pat, rep);
        if Contains(s[|pat|..], q) {
          ContainsSuffix(s, |pat|, q);
        }
        ReplaceKeepsAbsent(s[|pat|..], pat, rep, q);
        if Contains(rep + rest, q) {
          ContainsAfterPrefix(rep, rest, q);
        }
      } else {
        ReplaceKeepsAbsent(s[1..], pat, rep, q);
        if q <= r {
          ReplacedPrefix(s, pat, rep, q);
        }
        assert r[1..] == Replace(s[1..], pat, rep);
      }
    }
  }

  // ---------------------------------------------------------------------------
  // Properties of the templating
  // ---------------------------------------------------------------------------

  /** No decimal character occurs in a placeholder. */
  lemma DecimalAvoidsPlaceholder(i: int, q: string)
    requires q == "{x}" || q == "{y}" || q == "{z}"
    ensures forall k :: 0 <= k < |q| ==> q[k] !in IntToDecimal(i)
  {
  }

  /** After `fetch_tile`'s substitution no `{x}`, `{y}` or `{z}` placeholder is left. */
  lemma SubstituteFillsAll(source: string, x: int, y: int, z: int)
    ensures var r := Substitute(source, x, y, z);
      !Contains(r, "{x}") && !Contains(r, "{y}") && !Contains(r, "{z}")
  {
    var dx, dy, dz := IntToDecimal(x), IntToDecimal(y), IntToDecimal(z);
    DecimalAvoidsPlaceholder(x, "{x}");
    DecimalAvoidsPlaceholder(y, "{x}");
    DecimalAvoidsPlaceholder(z, "{x}");
    DecimalAvoidsPlaceholder(y, "{y}");
    DecimalAvoidsPlaceholder(z, "{y}");
    DecimalAvoidsPlaceholder(z, "{z}");
    var s1 := Replace(source, "{x}", dx);
    var s2 := Replace(s1, "{y}", dy);
    ReplaceRemovesAll(source, "{x}", dx);
    ReplaceKeepsAbsent(s1, "{y}", dy, "{x}");
    ReplaceKeepsAbsent(s2, "{z}", dz, "{x}");
    ReplaceRemovesAll(s1, "{y}", dy);
    ReplaceKeepsAbsent(s2, "{z}", dz, "{y}");
    ReplaceRemovesAll(s2, "{z}", dz);
  }


  /** The template the pieces spell out. */
  function Concat(pieces: seq<string>): string
  {
    if |pieces| == 0 then [] else pieces[0] + Concat(pieces[1..])
  }

  /** The pieces with every `pat` piece swapped for `rep`. */
  function Swap(pieces: seq<string>, pat: string, rep: string): (r: seq<string>)
    ensures |r| == |pieces|
    ensures forall i :: 0 <= i < |r| ==> r[i] == if pieces[i] == pat then rep else pieces[i]
  {
    if |pieces| == 0 then [] else [if pieces[0] == pat then rep else pieces[0]] + Swap(pieces[1..], pat, rep)
  }

  /** The filled-in piece: the decimal string for a placeholder, the text itself otherwise. */
  function Fill(o: string, x: int, y: int, z: int): string
  {
    if o == "{x}" then IntToDecimal(x)
    else if o == "{y}" then IntToDecimal(y)
    else if o == "{z}" then IntToDecimal(z)
    else o
  }

  /** A three-character `{c}` placeholder. */
  predicate Placeholder(p: string)
  {
    |p| == 3 && p[0] == '{' && p[1] != '{' && p[2] == '}'
  }

  /**
    A piece of a tile-source template: a `{c}` placeholder (`{x}`, `{y}`,
    `{z}`, or another such as `{s}` that `fetch_tile` leaves alone), or
    literal text without `{`.
  */
  predicate TemplatePiece(o: string)
  {
    Placeholder(o) || '{' !in o
  }

  /** One piece in front of the rest goes through `replace` on its own. */
  lemma ReplacePiece(o: string, s: string, pat: string, rep: string)
    requires Placeholder(pat)
    requires TemplatePiece(o)
    ensures Replace(o + s, pat, rep) == (if o == pat then rep else o) + Replace(s, pat, rep)
  {
    if '{' !in o {
      ReplaceAfterPrefix(o, s, pat, rep);
    } else if o[1] == pat[1] {
      assert o == pat;
      ReplaceFillsFirst([], s, pat, rep);
      assert [] + pat + s == o + s;
    } else {
      var t := o + s;
      assert t[1] != pat[1];
      assert t[1..] == o[1..] + s;
      ReplaceAfterPrefix(o[1..], s, pat, rep);
      assert [o[0]] + o[1..] == o;
    }
  }

  /** One `replace` of a placeholder swaps exactly the pieces equal to it. */
  lemma {:induction false} ReplacePieces(pieces: seq<string>, pat: string, rep: string)
    requires Placeholder(pat)
    requires forall i :: 0 <= i < |pieces| ==> TemplatePiece(pieces[i])
    ensures Replace(Concat(pieces), pat, rep) == Concat(Swap(pieces, pat, rep))
  {
    if |pieces| > 0 {
      ReplacePiece(pieces[0], Concat(pieces[1..]), pat, rep);
      ReplacePieces(pieces[1..], pat, rep);
    }
  }

  /** The pieces with every placeholder filled in. */
  function FillAll(pieces: seq<string>, x: int, y: int, z: int): (r: seq<string>)
    ensures |r| == |pieces|
  {
    if |pieces| == 0 then [] else [Fill(pieces[0], x, y, z)] + FillAll(pieces[1..], x, y, z)
  }

  /** Swapping `{x}`, then `{y}`, then `{z}` for decimal strings fills every placeholder. */
  lemma {:induction false} SwapsFill(pieces: seq<string>, x: int, y: int, z: int)
    ensures Swap(Swap(Swap(pieces, "{x}", IntToDecimal(x)), "{y}", IntToDecimal(y)), "{z}", IntToDecimal(z))
            == FillAll(pieces, x, y, z)
  {
    if |pieces| > 0 {
      SwapsFill(pieces[1..], x, y, z);
      DecimalHasNoBrace(x);
      DecimalHasNoBrace(y);
    }
  }

  /**
    `fetch_tile`'s substitution fills a template: each `{x}`, `{y}` and
    `{z}` piece becomes the decimal string of x, y and z, and the literal
    text between them is kept.
  */
  lemma SubstituteTemplate(pieces: seq<string>, x: int, y: int, z: int)
    requires forall i :: 0 <= i < |pieces| ==> TemplatePiece(pieces[i])
    ensures Substitute(Concat(pieces), x, y, z) == Concat(FillAll(pieces, x, y, z))
  {
    var dx, dy, dz := IntToDecimal(x), IntToDecimal(y), IntToDecimal(z);
    DecimalHasNoBrace(x);
    DecimalHasNoBrace(y);
    assert Placeholder("{x}") && Placeholder("{y}") && Placeholder("{z}");
    var p1 := Swap(pieces, "{x}", dx);
    var p2 := Swap(p1, "{y}", dy);
    ReplacePieces(pieces, "{x}", dx);
    ReplacePieces(p1, "{y}", dy);
    ReplacePieces(p2, "{z}", dz);
    SwapsFill(pieces, x, y, z);
  }

  /** `str(i)` contains no `{`. */
  lemma DecimalHasNoBrace(i: int)
    ensures '{' !in IntToDecimal(i)
  {
  }

  // ---------------------------------------------------------------------------
  // Properties of `fetch_tile` and `main`
  // ---------------------------------------------------------------------------

  /** Substitution copies a leading `file:///` unchanged. */
  lemma SubstituteAfterFilePrefix(s: string, x: int, y: int, z: int)
    ensures Substitute("file:///" + s, x, y, z) == "file:///" + Substitute(s, x, y, z)
  {
    var f := "file:///";
    var s1 := Replace(s, "{x}", IntToDecimal(x));
    var s2 := Replace(s1, "{y}", IntToDecimal(y));
    ReplaceAfterPrefix(f, s, "{x}", IntToDecimal(x));
    ReplaceAfterPrefix(f, s1, "{y}", IntToDecimal(y));
    ReplaceAfterPrefix(f, s2, "{z}", IntToDecimal(z));
  }

  /**
    A local path given on the command line comes back from `fetch_tile` as
    exactly its substituted form: `main`'s `file:///` prefix is the one
    `fetch_tile` strips, provided the substituted path has no `file:///` of
    its own.
  */
  lemma LocalSourceRoundTrip(arg: string, x: int, y: int, z: int, tempDir: string)
    requires !("http" <= arg)
    requires !Contains(Substitute(arg, x, y, z), "file:///")
    ensures FetchTile(x, y, z, TileSourceArgument(arg), tempDir) == LocalFile(Substitute(arg, x, y, z))
  {
    var source := "file:///" + arg;
    assert source[0] != "http"[0];
    SubstituteAfterFilePrefix(arg, x, y, z);
    var s := Substitute(arg, x, y, z);
    ReplaceFillsFirst([], s, "file:///", "");
    assert [] + "file:///" + s == "file:///" + s;
    ReplaceWithoutOccurrence(s, "file:///", "");
  }

  /** A character `str` never produces, so it separates the numbers of a temporary file name. */
  lemma DecimalHasNoSeparator(i: int)
    ensures '_' !in IntToDecimal(i) && '.' !in IntToDecimal(i)
  {
  }

  /** A separator a head does not contain marks where that head ends. */
  lemma SeparatorEndsHead(a: string, s: string, a': string, s': string, sep: char)
    requires sep !in a'
    requires a + [sep] + s == a' + [sep] + s'
    requires |a| <= |a'|
    ensures |a| == |a'|
  {
    assert (a + [sep] + s)[|a|] == sep;
  }

  /** Two strings split at the first occurrence of a separator neither head contains split the same way. */
  lemma SplitAtSeparator(a: string, s: string, a': string, s': string, sep: char)
    requires sep !in a && sep !in a'
    requires a + [sep] + s == a' + [sep] + s'
    ensures a == a' && s == s'
  {
    if |a| <= |a'| {
      SeparatorEndsHead(a, s, a', s', sep);
    } else {
      SeparatorEndsHead(a', s', a, s, sep);
    }
    var t := a + [sep] + s;
    assert a == t[..|a|] && s == t[|a| + 1..];
    var t' := a' + [sep] + s';
    assert a' == t'[..|a|] && s' == t'[|a| + 1..];
  }

  /** The file name `<a>_<b>_<c>.png` of a downloaded tile. */
  function TempName(a: string, b: string, c: string): string
  {
    a + "_" + b + "_" + c + ".png"
  }

  /** The numbers in a name `<a>_<b>_<c>.png` are determined by the name when `a` and `b` hold no `_`. */
  lemma TempNameFields(a: string, b: string, c: string, a': string, b': string, c': string)
    requires '_' !in a && '_' !in a' && '_' !in b && '_' !in b'
    requires TempName(a, b, c) == TempName(a', b', c')
    ensures a == a' && b == b' && c == c'
  {
    assert TempName(a, b, c) == a + ['_'] + (b + ['_'] + (c + ".png"));
    assert TempName(a', b', c') == a' + ['_'] + (b' + ['_'] + (c' + ".png"));
    SplitAtSeparator(a, b + ['_'] + (c + ".png"), a', b' + ['_'] + (c' + ".png"), '_');
    SplitAtSeparator(b, c + ".png", b', c' + ".png", '_');
    assert c == (c + ".png")[..|c|];
    assert c' == (c' + ".png")[..|c|];
  }

  /** The temporary file `fetch_tile` writes a downloaded tile to: `<tempDir>/<x>_<y>_<z>.png`. */
  function TempPath(x: int, y: int, z: int, tempDir: string): string
  {
    tempDir + "/" + TempName(IntToDecimal(x), IntToDecimal(y), IntToDecimal(z))
  }

  /**
    A source starting with `http` is substituted and downloaded, and
    different tiles are written to different temporary files: the name
    `<x>_<y>_<z>.png` determines the tile.
  */
  lemma RemoteTilesDistinctPaths(x: int, y: int, z: int, x': int, y': int, z': int, source: string, tempDir: string)
    requires "http" <= source
    ensures FetchTile(x, y, z, source, tempDir) == Downloaded(Substitute(source, x, y, z), TempPath(x, y, z, tempDir))
    ensures TempPath(x, y, z, tempDir) == TempPath(x', y', z', tempDir) <==> (x, y, z) == (x', y', z')
  {
    if TempPath(x, y, z, tempDir) == TempPath(x', y', z', tempDir) {
      TempPathFields(x, y, z, x', y', z', tempDir);
      IntDecimalRoundTrip(x);
      IntDecimalRoundTrip(x');
      IntDecimalRoundTrip(y);
      IntDecimalRoundTrip(y');
      IntDecimalRoundTrip(z);
      IntDecimalRoundTrip(z');
    }
  }

  /** Equal temporary file names hold equal decimal strings. */
  lemma TempPathFields(x: int, y: int, z: int, x': int, y': int, z': int, tempDir: string)
    requires TempPath(x, y, z, tempDir) == TempPath(x', y', z', tempDir)
    ensures IntToDecimal(x) == IntToDecimal(x') && IntToDecimal(y) == IntToDecimal(y') && IntToDecimal(z) == IntToDecimal(z')
  {
    var p := tempDir + "/";
    var name := TempName(IntToDecimal(x), IntToDecimal(y), IntToDecimal(z));
    var name' := TempName(IntToDecimal(x'), IntToDecimal(y'), IntToDecimal(z'));
    assert name == (p + name)[|p|..] && name' == (p + name')[|p|..];
    DecimalHasNoSeparator(x);
    DecimalHasNoSeparator(x');
    DecimalHasNoSeparator(y);
    DecimalHasNoSeparator(y');
    TempNameFields(IntToDecimal(x), IntToDecimal(y), IntToDecimal(z), IntToDecimal(x'), IntToDecimal(y'), IntToDecimal(z'));
  }

  /**
    A local template is never downloaded: `fetch_tile` gives the template
    with each `{x}`, `{y}` and `{z}` filled in and every `file:///` removed.
  */
  lemma LocalTemplateFetch(pieces: seq<string>, x: int, y: int, z: int, tempDir: string)
    requires forall i :: 0 <= i < |pieces| ==> TemplatePiece(pieces[i])
    requires !("http" <= Concat(pieces))
    ensures FetchTile(x, y, z, Concat(pieces), tempDir)
            == LocalFile(Replace(Concat(FillAll(pieces, x, y, z)), "file:///", ""))
  {
    SubstituteTemplate(pieces, x, y, z);
  }
}
