/** The pieces of Go's standard string and path handling that the downloader's
    logic depends on: `unicode.IsSpace`, `strings.Fields`, `strings.TrimSpace`,
    `filepath.Ext` (with '/' as the only separator) and `fmt.Sprintf("%d", n)`
    for a non-negative n.  Strings are sequences of runes. */
module GoStrings {

  /** Go's `unicode.IsSpace`: the Latin-1 spaces and the Unicode White_Space set. */
  predicate IsSpace(c: char) {
    || ('\U{9}' <= c <= '\U{D}')
    || c == ' ' || c == '\U{85}' || c == '\U{A0}' || c == '\U{1680}'
    || ('\U{2000}' <= c <= '\U{200A}')
    || c == '\U{2028}' || c == '\U{2029}' || c == '\U{202F}' || c == '\U{205F}' || c == '\U{3000}'
  }

  predicate SpaceFree(w: string) {
    forall i :: 0 <= i < |w| ==> !IsSpace(w[i])
  }

  predicate Blank(s: string) {
    forall i :: 0 <= i < |s| ==> IsSpace(s[i])
  }

  /** A field of `strings.Fields`: non-empty and free of white space. */
  predicate IsWord(w: string) {
    w != [] && SpaceFree(w)
  }

  predicate IsSuffix(r: string, s: string) {
    |r| <= |s| && s[|s| - |r|..] == r
  }

  /** `s` with every white-space rune removed. */
  function NonSpace(s: string): string {
    if s == [] then [] else (if IsSpace(s[0]) then [] else [s[0]]) + NonSpace(s[1..])
  }

  function Concat(ws: seq<string>): string {
    if ws == [] then [] else ws[0] + Concat(ws[1..])
  }

  /** The words joined by single spaces. */
  function JoinSpace(ws: seq<string>): string {
    if ws == [] then []
    else if |ws| == 1 then ws[0]
    else ws[0] + " " + JoinSpace(ws[1..])
  }

  lemma {:induction false} NonSpaceAppend(a: string, b: string)
    ensures NonSpace(a + b) == NonSpace(a) + NonSpace(b)
    decreases |a|
  {
    if a == [] {
      assert a + b == b;
    } else {
      assert (a + b)[0] == a[0];
      assert (a + b)[1..] == a[1..] + b;
      NonSpaceAppend(a[1..], b);
    }
  }

  lemma {:induction false} NonSpaceOfSpaceFree(w: string)
    requires SpaceFree(w)
    ensures NonSpace(w) == w
    decreases |w|
  {
    if w != [] {
      NonSpaceOfSpaceFree(w[1..]);
    }
  }

  /** Length of the run of non-space runes at the start of `s`. */
  function WordLength(s: string): (n: nat)
    ensures n <= |s|
    ensures forall i :: 0 <= i < n ==> !IsSpace(s[i])
    ensures n < |s| ==> IsSpace(s[n])
  {
    if s == [] || IsSpace(s[0]) then 0 else 1 + WordLength(s[1..])
  }

  /** Go's `strings.Fields`: the maximal runs of non-space runes, in order.
      No field is empty or contains white space, and together they hold
      exactly the non-space runes of `s`. */
  function Fields(s: string): (r: seq<string>)
    ensures forall k :: 0 <= k < |r| ==> IsWord(r[k])
    ensures Concat(r) == NonSpace(s)
    decreases |s|
  {
    if s == [] then []
    else if IsSpace(s[0]) then
      Fields(s[1..])
    else
      var n := WordLength(s);
      assert s[..n] + s[n..] == s;
      NonSpaceAppend(s[..n], s[n..]);
      NonSpaceOfSpaceFree(s[..n]);
      [s[..n]] + Fields(s[n..])
  }

  lemma FieldsOfWordThen(w: string, rest: string)
    requires IsWord(w)
    requires rest == [] || IsSpace(rest[0])
    ensures Fields(w + rest) == [w] + Fields(rest)
  {
    var s := w + rest;
    var n := WordLength(s);
    assert forall i :: 0 <= i < |w| ==> s[i] == w[i];
    assert |w| < |s| ==> s[|w|] == rest[0];
    assert n == |w|;
    assert s[..n] == w && s[n..] == rest;
  }

  /** Splitting words joined by spaces gives the words back. */
  lemma {:induction false} FieldsJoinSpace(ws: seq<string>)
    requires forall k :: 0 <= k < |ws| ==> IsWord(ws[k])
    ensures Fields(JoinSpace(ws)) == ws
    decreases |ws|
  {
    if ws == [] {
    } else if |ws| == 1 {
      FieldsOfWordThen(ws[0], []);
      assert ws[0] + [] == ws[0];
    } else {
      var rest := " " + JoinSpace(ws[1..]);
      assert JoinSpace(ws) == ws[0] + rest;
      FieldsOfWordThen(ws[0], rest);
      assert rest[1..] == JoinSpace(ws[1..]);
      FieldsJoinSpace(ws[1..]);
      assert ws == [ws[0]] + ws[1..];
    }
  }

  /** `strings.Fields` finds nothing exactly when the string is blank. */
  lemma {:induction false} FieldsEmptyIffBlank(s: string)
    ensures Fields(s) == [] <==> Blank(s)
    decreases |s|
  {
    if s != [] {
      FieldsEmptyIffBlank(s[1..]);
      if IsSpace(s[0]) {
        assert Blank(s) <==> Blank(s[1..]) by {
          if Blank(s[1..]) {
            forall i | 0 <= i < |s| ensures IsSpace(s[i]) {
              if i > 0 { assert s[i] == s[1..][i - 1]; }
            }
          }
        }
      } else {
        assert !Blank(s);
      }
    }
  }

  /** The words with the gaps around them: `gaps[0] + words[0] + gaps[1] +
      … + words[n-1] + gaps[n]`. */
  function Interleave(gaps: seq<string>, words: seq<string>): string
    requires |gaps| == |words| + 1
    decreases |words|
  {
    if words == [] then gaps[0] else gaps[0] + words[0] + Interleave(gaps[1..], words[1..])
  }

  /** Gaps between fields: all white space, and every gap between two
      fields holds at least one rune; only the outer two may be empty. */
  predicate Separators(gaps: seq<string>) {
    && (forall k :: 0 <= k < |gaps| ==> Blank(gaps[k]))
    && (forall k :: 0 < k < |gaps| - 1 ==> gaps[k] != [])
  }

  /** `r` is a split of `s` into maximal runs of non-space runes: each field
      is a word, and `s` is the fields with white space between and around
      them, at least one rune between any two. */
  ghost predicate SplitsAs(s: string, r: seq<string>) {
    && (forall k :: 0 <= k < |r| ==> IsWord(r[k]))
    && exists gaps :: |gaps| == |r| + 1 && Separators(gaps) && Interleave(gaps, r) == s
  }

  /** Putting runes in front of the first gap puts them in front of the
      whole. */
  lemma InterleavePrefix(x: string, gaps: seq<string>, words: seq<string>)
    requires |gaps| == |words| + 1
    ensures Interleave([x + gaps[0]] + gaps[1..], words) == x + Interleave(gaps, words)
  {
    var g := [x + gaps[0]] + gaps[1..];
    assert g[1..] == gaps[1..];
  }

  /** A white-space rune in front of a split joins its first gap. */
  lemma GapsAfterSpace(c: char, t: string, r: seq<string>, g: seq<string>)
    requires IsSpace(c)
    requires |g| == |r| + 1 && Separators(g) && Interleave(g, r) == t
    ensures var gaps := [[c] + g[0]] + g[1..];
            |gaps| == |r| + 1 && Separators(gaps) && Interleave(gaps, r) == [c] + t
  {
    var gaps := [[c] + g[0]] + g[1..];
    InterleavePrefix([c], g, r);
    assert Blank(gaps[0]) by {
      forall k | 0 <= k < |gaps[0]| ensures IsSpace(gaps[0][k]) {
        if k > 0 { assert gaps[0][k] == g[0][k - 1]; }
      }
    }
    assert forall k :: 0 < k < |gaps| ==> gaps[k] == g[k];
  }

  /** A word in front of a split that starts with white space (or is empty)
      becomes its first field, with an empty gap before it. */
  lemma GapsAfterWord(w: string, t: string, r: seq<string>, g: seq<string>)
    requires forall k :: 0 <= k < |r| ==> IsWord(r[k])
    requires |g| == |r| + 1 && Separators(g) && Interleave(g, r) == t
    requires t == [] || IsSpace(t[0])
    ensures var gaps := [[]] + g;
            |gaps| == |r| + 2 && Separators(gaps) && Interleave(gaps, [w] + r) == w + t
  {
    var gaps := [[]] + g;
    assert gaps[1..] == g;
    assert ([w] + r)[1..] == r;
    assert forall k :: 0 < k < |gaps| ==> gaps[k] == g[k - 1];
    if r != [] {
      assert g[0] != [] by {
        assert t == g[0] + r[0] + Interleave(g[1..], r[1..]);
      }
    }
  }

  /** The gaps around the fields `Fields` finds. */
  lemma {:induction false} FieldsGaps(s: string) returns (gaps: seq<string>)
    ensures |gaps| == |Fields(s)| + 1 && Separators(gaps) && Interleave(gaps, Fields(s)) == s
    decreases |s|
  {
    if s == [] {
      gaps := [[]];
    } else if IsSpace(s[0]) {
      var g := FieldsGaps(s[1..]);
      GapsAfterSpace(s[0], s[1..], Fields(s[1..]), g);
      assert [s[0]] + s[1..] == s;
      gaps := [[s[0]] + g[0]] + g[1..];
    } else {
      var n := WordLength(s);
      var rest := s[n..];
      var g := FieldsGaps(rest);
      GapsAfterWord(s[..n], rest, Fields(rest), g);
      assert s[..n] + rest == s;
      gaps := [[]] + g;
    }
  }

  /** Any split into maximal runs is the one `Fields` finds. */
  lemma {:induction false} SplitIsFields(s: string, r: seq<string>, gaps: seq<string>)
    requires forall k :: 0 <= k < |r| ==> IsWord(r[k])
    requires |gaps| == |r| + 1 && Separators(gaps) && Interleave(gaps, r) == s
    ensures r == Fields(s)
    decreases |s|
  {
    if gaps[0] != [] {
      var c := gaps[0][0];
      var g := [gaps[0][1..]] + gaps[1..];
      assert [c] + gaps[0][1..] == gaps[0];
      assert [[c] + g[0]] + g[1..] == gaps;
      InterleavePrefix([c], g, r);
      assert s[1..] == Interleave(g, r);
      assert Blank(g[0]) by {
        forall k | 0 <= k < |g[0]| ensures IsSpace(g[0][k]) {
          assert g[0][k] == gaps[0][k + 1];
        }
      }
      assert forall k :: 0 < k < |g| ==> g[k] == gaps[k];
      SplitIsFields(s[1..], r, g);
    } else if r != [] {
      var rest := Interleave(gaps[1..], r[1..]);
      assert s == r[0] + rest;
      if |r| >= 2 {
        assert gaps[1] != [];
        assert rest == gaps[1] + r[1] + Interleave(gaps[2..], r[2..]);
        assert rest[0] == gaps[1][0];
      }
      FieldsOfWordThen(r[0], rest);
      assert forall k :: 0 <= k < |gaps| - 1 ==> gaps[1..][k] == gaps[k + 1];
      SplitIsFields(rest, r[1..], gaps[1..]);
      assert r == [r[0]] + r[1..];
    }
  }

  /** `strings.Fields` returns exactly the maximal runs of non-space runes:
      a list of strings is `Fields(s)` if and only if it splits `s` that
      way. */
  lemma FieldsIffSplits(s: string, r: seq<string>)
    ensures r == Fields(s) <==> SplitsAs(s, r)
  {
    if r == Fields(s) {
      var gaps := FieldsGaps(s);
    }
    if SplitsAs(s, r) {
      var gaps :| |gaps| == |r| + 1 && Separators(gaps) && Interleave(gaps, r) == s;
      SplitIsFields(s, r, gaps);
    }
  }

  /** `s` without its leading white space. */
  function TrimLeft(s: string): (r: string)
    ensures IsSuffix(r, s)
    ensures forall i :: 0 <= i < |s| - |r| ==> IsSpace(s[i])
    ensures r == [] || !IsSpace(r[0])
  {
    if s != [] && IsSpace(s[0]) then
      var r := TrimLeft(s[1..]);
      assert s[|s| - |r|..] == s[1..][|s| - 1 - |r|..];
      assert forall i :: 1 <= i < |s| - |r| ==> s[i] == s[1..][i - 1];
      r
    else s
  }

  /** `s` without its trailing white space. */
  function TrimRight(s: string): (r: string)
    ensures |r| <= |s| && r == s[..|r|]
    ensures forall i :: |r| <= i < |s| ==> IsSpace(s[i])
    ensures r == [] || !IsSpace(r[|r| - 1])
  {
    if s != [] && IsSpace(s[|s| - 1]) then TrimRight(s[..|s| - 1]) else s
  }

  /** Go's `strings.TrimSpace`: the part of `s` between its leading and its
      trailing white space.  It is "" exactly for blank input, and otherwise
      starts and ends with a non-space rune. */
  function TrimSpace(s: string): (r: string)
    ensures exists i, j :: && 0 <= i <= j <= |s| && r == s[i..j]
                           && forall k :: 0 <= k < |s| && !(i <= k < j) ==> IsSpace(s[k])
    ensures r == [] <==> Blank(s)
    ensures r != [] ==> !IsSpace(r[0]) && !IsSpace(r[|r| - 1])
  {
    TrimmedSlice(s);
    TrimmedEnds(s);
    TrimRight(TrimLeft(s))
  }

  /** Trimming both ends leaves nothing exactly for blank input. */
  lemma TrimmedEnds(s: string)
    ensures TrimRight(TrimLeft(s)) == [] <==> Blank(s)
  {
    var l := TrimLeft(s);
    if l == [] {
      assert Blank(s) by {
        forall k | 0 <= k < |s| ensures IsSpace(s[k]) { }
      }
    } else {
      assert s[|s| - |l|] == l[0];
    }
  }

  /** The trailing white space `TrimRight` removes after `TrimLeft` lies at
      the end of `s` itself. */
  lemma TrimmedRightBlank(s: string)
    ensures var j := |s| - |TrimLeft(s)| + |TrimRight(TrimLeft(s))|;
            forall k :: j <= k < |s| ==> IsSpace(s[k])
  {
    var l := TrimLeft(s);
    var i := |s| - |l|;
    var j := i + |TrimRight(l)|;
    forall k | j <= k < |s|
      ensures IsSpace(s[k])
    {
      assert s[k] == l[k - i];
    }
  }

  /** Trimming both ends cuts out a slice of `s` with only white space
      outside it. */
  lemma TrimmedSlice(s: string)
    ensures var i := |s| - |TrimLeft(s)|;
            var j := i + |TrimRight(TrimLeft(s))|;
            && 0 <= i <= j <= |s| && TrimRight(TrimLeft(s)) == s[i..j]
            && forall k :: 0 <= k < |s| && !(i <= k < j) ==> IsSpace(s[k])
  {
    var l := TrimLeft(s);
    var i := |s| - |l|;
    TrimmedRightBlank(s);
    assert l == s[i..];
  }

  /** The part of a path after its last '/'. */
  function LastSegment(p: string): (r: string)
    ensures '/' !in r
    ensures IsSuffix(r, p)
    ensures |r| < |p| ==> p[|p| - |r| - 1] == '/'
  {
    if p == [] || p[|p| - 1] == '/' then []
    else LastSegment(p[..|p| - 1]) + [p[|p| - 1]]
  }

  /** Go's `filepath.Ext` on a '/'-separated path: the suffix of the last
      segment that starts at its last '.', or "" when that segment has no '.'
      (`ExtOfLastSegment` states this). */
  function Ext(path: string): (r: string)
    ensures r == [] || r[0] == '.'
    decreases |path|
  {
    if path == [] then []
    else
      var c := path[|path| - 1];
      if c == '/' then []
      else if c == '.' then ['.']
      else
        var e := Ext(path[..|path| - 1]);
        if e == [] then [] else e + [c]
  }

  /** `Ext` finds the last '.' of the last segment: it is empty exactly when
      that segment has no '.', and otherwise it is a suffix of the segment
      with no further '.'. */
  lemma {:induction false} ExtOfLastSegment(path: string)
    ensures Ext(path) == [] <==> '.' !in LastSegment(path)
    ensures Ext(path) != [] ==> IsExtension(Ext(path)) && IsSuffix(Ext(path), LastSegment(path))
  {
    ExtEmptyIffNoDot(path);
    ExtSuffixOfSegment(path);
    if Ext(path) != [] {
      ExtIsExtension(path);
    }
  }

  lemma {:induction false} ExtEmptyIffNoDot(path: string)
    ensures Ext(path) == [] <==> '.' !in LastSegment(path)
    decreases |path|
  {
    if path != [] {
      var c := path[|path| - 1];
      var init := path[..|path| - 1];
      if c != '/' {
        var seg := LastSegment(init);
        assert LastSegment(path) == seg + [c];
        InAppend(seg, c, '.');
        if c != '.' {
          ExtEmptyIffNoDot(init);
          assert Ext(path) == [] <==> Ext(init) == [];
        }
      }
    }
  }

  lemma {:induction false} ExtSuffixOfSegment(path: string)
    ensures IsSuffix(Ext(path), LastSegment(path))
    decreases |path|
  {
    if path != [] {
      var c := path[|path| - 1];
      var init := path[..|path| - 1];
      if c == '/' {
        assert Ext(path) == [];
      } else if c == '.' {
        var seg := LastSegment(init);
        assert LastSegment(path) == seg + [c];
        assert Ext(path) == ['.'];
        SuffixAppend([], seg, c);
      } else {
        var seg := LastSegment(init);
        assert LastSegment(path) == seg + [c];
        ExtSuffixOfSegment(init);
        var e := Ext(init);
        if e != [] {
          assert Ext(path) == e + [c];
          SuffixAppend(e, seg, c);
        } else {
          assert Ext(path) == [];
        }
      }
    }
  }

  lemma InAppend(s: string, c: char, x: char)
    ensures x in s + [c] <==> x in s || x == c
  {
    if x in s + [c] {
      var i :| 0 <= i < |s + [c]| && (s + [c])[i] == x;
      if i < |s| { assert s[i] == x; }
    }
    if x in s {
      var i :| 0 <= i < |s| && s[i] == x;
      assert (s + [c])[i] == x;
    }
    if x == c {
      assert (s + [c])[|s|] == x;
    }
  }

  lemma SuffixAppend(r: string, s: string, c: char)
    requires IsSuffix(r, s)
    ensures IsSuffix(r + [c], s + [c])
  {
    assert (s + [c])[|s| - |r|..] == s[|s| - |r|..] + [c];
  }

  /** A string of the shape `filepath.Ext` returns. */
  predicate IsExtension(e: string) {
    e != [] && e[0] == '.' && forall i :: 1 <= i < |e| ==> e[i] != '.' && e[i] != '/'
  }

  lemma {:induction false} ExtIsExtension(path: string)
    requires Ext(path) != []
    ensures IsExtension(Ext(path))
    decreases |path|
  {
    var c := path[|path| - 1];
    var init := path[..|path| - 1];
    if c != '.' {
      var e := Ext(init);
      ExtIsExtension(init);
      assert Ext(path) == e + [c];
      assert forall i :: 1 <= i < |e| ==> (e + [c])[i] == e[i];
    }
  }

  /** Appending an extension to any stem makes it the path's extension:
      `filepath.Ext(stem + ext) == ext`. */
  lemma {:induction false} ExtOfName(stem: string, ext: string)
    requires IsExtension(ext)
    ensures Ext(stem + ext) == ext
    decreases |ext|
  {
    var p := stem + ext;
    var c := p[|p| - 1];
    assert c == ext[|ext| - 1];
    if |ext| == 1 {
      assert c == '.';
    } else {
      var init := ext[..|ext| - 1];
      assert p[..|p| - 1] == stem + init;
      assert c == ext[|ext| - 1] && c != '/' && c != '.';
      assert IsExtension(init) by {
        forall i | 1 <= i < |init| ensures init[i] != '.' && init[i] != '/' {
          assert init[i] == ext[i];
        }
      }
      ExtOfName(stem, init);
      assert init + [c] == ext;
    }
  }

  function DigitChar(d: nat): (c: char)
    requires d < 10
    ensures '0' <= c <= '9'
  {
    (48 + d) as char
  }

  function DigitValue(c: char): nat
    requires '0' <= c <= '9'
  {
    c as int - 48
  }

  predicate IsDigits(s: string) {
    forall i :: 0 <= i < |s| ==> '0' <= s[i] <= '9'
  }

  /** `fmt.Sprintf("%d", n)` for a non-negative n: decimal digits without
      leading zeros. */
  function Decimal(n: nat): (s: string)
    ensures s != [] && IsDigits(s)
    ensures s[0] == '0' ==> s == "0"
  {
    if n < 10 then [DigitChar(n)] else Decimal(n / 10) + [DigitChar(n % 10)]
  }

  /** The value of a string of decimal digits. */
  function ParseDecimal(s: string): nat
    requires IsDigits(s)
  {
    if s == [] then 0 else 10 * ParseDecimal(s[..|s| - 1]) + DigitValue(s[|s| - 1])
  }

  /** Reading back a formatted number gives the number. */
  lemma {:induction false} DecimalRoundTrip(n: nat)
    ensures ParseDecimal(Decimal(n)) == n
  {
    var s := Decimal(n);
    if n >= 10 {
      DecimalRoundTrip(n / 10);
      assert s[..|s| - 1] == Decimal(n / 10);
    }
  }

  /** Distinct numbers format differently. */
  lemma DecimalInjective(m: nat, n: nat)
    requires Decimal(m) == Decimal(n)
    ensures m == n
  {
    DecimalRoundTrip(m);
    DecimalRoundTrip(n);
  }
}
