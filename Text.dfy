/** The parts of .NET's `System.String` that the command router relies on,
    over `string` (that is, `seq<char>`): white-space tests, the `Trim`
    family, invariant lower-casing restricted to ASCII, prefix and substring
    tests, and the two `Split` variants. */
module Text {
  import opened Wrappers

  /** `char.IsWhiteSpace`: the Unicode space separators (U+0020, U+00A0,
      U+1680, U+2000..U+200A, U+202F, U+205F, U+3000), the line and paragraph
      separators (U+2028, U+2029) and the control characters U+0009..U+000D
      and U+0085. */
  predicate IsWhiteSpace(c: char) {
    var n := c as int;
    || (0x09 <= n <= 0x0D) || n == 0x20 || n == 0x85 || n == 0xA0 || n == 0x1680
    || (0x2000 <= n <= 0x200A) || n == 0x2028 || n == 0x2029 || n == 0x202F
    || n == 0x205F || n == 0x3000
  }

  /** `string.IsNullOrWhiteSpace` on a non-null string: empty or all white space. */
  predicate IsBlank(s: string) {
    forall i :: 0 <= i < |s| ==> IsWhiteSpace(s[i])
  }

  /** `string.IsNullOrWhiteSpace` on a nullable string. */
  predicate IsNullOrWhiteSpace(s: Option<string>) {
    s.None? || IsBlank(s.value)
  }

  /** What a trim removes: white space (`Trim()`) or one given character (`Trim(c)`). */
  datatype Strip = WhiteSpace | Char(c: char)

  /** Does `strip` remove `x`? */
  predicate Strips(strip: Strip, x: char) {
    if strip.WhiteSpace? then IsWhiteSpace(x) else x == strip.c
  }

  /** Every character of `s` is one `strip` removes. */
  predicate AllStripped(s: string, strip: Strip) {
    forall i :: 0 <= i < |s| ==> Strips(strip, s[i])
  }

  /** `s` neither starts nor ends with a character `strip` removes. */
  predicate Unpadded(s: string, strip: Strip) {
    s == [] || (!Strips(strip, s[0]) && !Strips(strip, s[|s| - 1]))
  }

  /** Removes every leading character that `strip` removes. */
  function TrimStartBy(s: string, strip: Strip): string
    decreases |s|
  {
    if |s| > 0 && Strips(strip, s[0]) then TrimStartBy(s[1..], strip) else s
  }

  /** Removes every trailing character that `strip` removes. */
  function TrimEndBy(s: string, strip: Strip): string
    decreases |s|
  {
    if |s| > 0 && Strips(strip, s[|s| - 1]) then TrimEndBy(s[..|s| - 1], strip) else s
  }

  /** Removes leading and trailing characters that `strip` removes. */
  function TrimBy(s: string, strip: Strip): string {
    TrimEndBy(TrimStartBy(s, strip), strip)
  }

  /** `string.Trim()` */
  function Trim(s: string): string {
    TrimBy(s, WhiteSpace)
  }

  /** `string.TrimEnd(c)`: strips every trailing `c`, not just one. */
  function TrimEndChar(s: string, c: char): string {
    TrimEndBy(s, Char(c))
  }

  /** `string.Trim(c)`: strips every leading and trailing `c`. */
  function TrimChar(s: string, c: char): string {
    TrimBy(s, Char(c))
  }

  /** `TrimStartBy` drops the longest stripped prefix: what it returns is a
      suffix of `s`, everything before it is stripped, and it does not start
      with a stripped character. */
  lemma {:induction false} TrimStartBySpec(s: string, strip: Strip)
    ensures var r := TrimStartBy(s, strip);
      && |r| <= |s| && r == s[|s| - |r|..]
      && AllStripped(s[..|s| - |r|], strip)
      && (r == [] || !Strips(strip, r[0]))
    decreases |s|
  {
    if |s| > 0 && Strips(strip, s[0]) {
      TrimStartBySpec(s[1..], strip);
      var r := TrimStartBy(s, strip);
      var k := |s| - |r|;
      assert s[1..][..|s[1..]| - |r|] == s[1..k];
      assert forall i :: 1 <= i < k ==> s[..k][i] == s[1..k][i - 1];
    }
  }

  /** `TrimEndBy` drops the longest stripped suffix: what it returns is a
      prefix of `s`, everything after it is stripped, and it does not end with
      a stripped character. */
  lemma {:induction false} TrimEndBySpec(s: string, strip: Strip)
    ensures var r := TrimEndBy(s, strip);
      && |r| <= |s| && r == s[..|r|]
      && AllStripped(s[|r|..], strip)
      && (r == [] || !Strips(strip, r[|r| - 1]))
    decreases |s|
  {
    if |s| > 0 && Strips(strip, s[|s| - 1]) {
      var s' := s[..|s| - 1];
      TrimEndBySpec(s', strip);
      var r := TrimEndBy(s, strip);
      assert s'[..|r|] == s[..|r|];
      assert forall i :: 0 <= i < |s| - 1 - |r| ==> s[|r|..][i] == s'[|r|..][i];
    }
  }

  /** `TrimBy` leaves nothing exactly when everything is stripped, and what
      it leaves is a part of `s` without stripped characters at its ends. */
  lemma TrimBySpec(s: string, strip: Strip)
    ensures TrimBy(s, strip) == [] <==> AllStripped(s, strip)
    ensures Unpadded(TrimBy(s, strip), strip)
    ensures |TrimBy(s, strip)| <= |s|
  {
    var t := TrimStartBy(s, strip);
    TrimStartBySpec(s, strip);
    TrimEndBySpec(t, strip);
    var r := TrimEndBy(t, strip);
    if r == [] {
      assert t == [];
      assert s[..|s|] == s;
    } else {
      assert r[0] == t[0];
    }
  }

  /** Trimming a string without stripped characters at its ends changes nothing. */
  lemma TrimByUnchanged(s: string, strip: Strip)
    requires Unpadded(s, strip)
    ensures TrimBy(s, strip) == s
  {
    if s != [] {
      assert TrimStartBy(s, strip) == s;
      assert TrimEndBy(s, strip) == s;
    }
  }

  /** A stripped prefix never changes what `TrimStartBy` returns. */
  lemma {:induction false} TrimStartPadding(l: string, s: string, strip: Strip)
    requires AllStripped(l, strip)
    ensures TrimStartBy(l + s, strip) == TrimStartBy(s, strip)
    decreases |l|
  {
    if l != [] {
      assert (l + s)[0] == l[0] && Strips(strip, l[0]);
      assert (l + s)[1..] == l[1..] + s;
      var l' := l[1..];
      assert forall i :: 0 <= i < |l'| ==> l'[i] == l[i + 1];
      TrimStartPadding(l', s, strip);
    } else {
      assert l + s == s;
    }
  }

  /** A stripped suffix never changes what `TrimEndBy` returns. */
  lemma {:induction false} TrimEndPadding(s: string, r: string, strip: Strip)
    requires AllStripped(r, strip)
    ensures TrimEndBy(s + r, strip) == TrimEndBy(s, strip)
    decreases |r|
  {
    if r != [] {
      assert (s + r)[|s + r| - 1] == r[|r| - 1] && Strips(strip, r[|r| - 1]);
      assert (s + r)[..|s + r| - 1] == s + r[..|r| - 1];
      var r' := r[..|r| - 1];
      assert forall i :: 0 <= i < |r'| ==> r'[i] == r[i];
      TrimEndPadding(s, r', strip);
    } else {
      assert s + r == s;
    }
  }

  /** Stripping the front of `s + r`, when `s` has a kept character, leaves `r` alone. */
  lemma {:induction false} TrimStartAppend(s: string, r: string, strip: Strip)
    requires !AllStripped(s, strip)
    ensures TrimStartBy(s + r, strip) == TrimStartBy(s, strip) + r
    decreases |s|
  {
    assert (s + r)[0] == s[0];
    if Strips(strip, s[0]) {
      assert (s + r)[1..] == s[1..] + r;
      var i :| 0 <= i < |s| && !Strips(strip, s[i]);
      assert !Strips(strip, s[1..][i - 1]);
      TrimStartAppend(s[1..], r, strip);
    }
  }

  /** Stripped characters around a string never change what `TrimBy` returns. */
  lemma TrimByPadding(l: string, s: string, r: string, strip: Strip)
    requires AllStripped(l, strip) && AllStripped(r, strip)
    ensures TrimBy(l + s + r, strip) == TrimBy(s, strip)
  {
    assert l + s + r == l + (s + r);
    TrimStartPadding(l, s + r, strip);
    if AllStripped(s, strip) {
      TrimStartPadding(s, r, strip);
      TrimStartBySpec(r, strip);
      assert TrimStartBy(r, strip) == [];
      TrimStartBySpec(s, strip);
      assert TrimStartBy(s, strip) == [];
    } else {
      TrimStartAppend(s, r, strip);
      TrimEndPadding(TrimStartBy(s, strip), r, strip);
    }
  }

  /** `char.ToLowerInvariant` on ASCII: maps 'A'..'Z' to 'a'..'z', keeps every other character. */
  function LowerChar(c: char): char {
    if 'A' <= c <= 'Z' then (c as int - 'A' as int + 'a' as int) as char else c
  }

  /** `string.ToLowerInvariant`, restricted to ASCII letters. */
  function ToLower(s: string): (r: string)
    ensures |r| == |s|
    ensures forall i :: 0 <= i < |s| ==> r[i] == LowerChar(s[i])
  {
    seq(|s|, i requires 0 <= i < |s| => LowerChar(s[i]))
  }

  /** A string with no ASCII upper-case letter. */
  predicate IsLower(s: string) {
    forall i :: 0 <= i < |s| ==> !('A' <= s[i] <= 'Z')
  }

  /** Lower-casing yields a lower-case string and keeps a lower-case one. */
  lemma ToLowerLowers(s: string)
    ensures IsLower(ToLower(s))
    ensures IsLower(s) ==> ToLower(s) == s
  {
  }

  /** Lower-casing never turns white space into something else or back. */
  lemma LowerCharWhiteSpace(c: char)
    ensures IsWhiteSpace(LowerChar(c)) == IsWhiteSpace(c)
  {
  }

  /** Lower-casing and trimming commute, because no white-space character is a letter. */
  lemma ToLowerTrim(s: string)
    ensures Trim(ToLower(s)) == ToLower(Trim(s))
    ensures IsBlank(ToLower(s)) == IsBlank(s)
  {
    ToLowerTrimStart(s);
    ToLowerTrimEnd(TrimStartBy(s, WhiteSpace));
    forall i | 0 <= i < |s| ensures IsWhiteSpace(ToLower(s)[i]) == IsWhiteSpace(s[i]) {
      LowerCharWhiteSpace(s[i]);
    }
  }

  lemma {:induction false} ToLowerTrimStart(s: string)
    ensures TrimStartBy(ToLower(s), WhiteSpace) == ToLower(TrimStartBy(s, WhiteSpace))
    decreases |s|
  {
    if |s| > 0 {
      LowerCharWhiteSpace(s[0]);
      if IsWhiteSpace(s[0]) {
        assert ToLower(s)[1..] == ToLower(s[1..]);
        ToLowerTrimStart(s[1..]);
      }
    }
  }

  lemma {:induction false} ToLowerTrimEnd(s: string)
    ensures TrimEndBy(ToLower(s), WhiteSpace) == ToLower(TrimEndBy(s, WhiteSpace))
    decreases |s|
  {
    if |s| > 0 {
      LowerCharWhiteSpace(s[|s| - 1]);
      if IsWhiteSpace(s[|s| - 1]) {
        assert ToLower(s)[..|s| - 1] == ToLower(s[..|s| - 1]);
        ToLowerTrimEnd(s[..|s| - 1]);
      }
    }
  }

  /** `s.StartsWith(p, StringComparison.Ordinal)` */
  predicate StartsWith(s: string, p: string) {
    |p| <= |s| && s[..|p|] == p
  }

  /** `s.StartsWith(p, StringComparison.OrdinalIgnoreCase)`, ASCII case-folding. */
  predicate StartsWithIgnoreCase(s: string, p: string) {
    StartsWith(ToLower(s), ToLower(p))
  }

  /** `s.Contains(sub, StringComparison.Ordinal)`: `sub` occurs somewhere in `s`. */
  predicate Contains(s: string, sub: string)
    decreases |s|
  {
    StartsWith(s, sub) || (|s| > 0 && Contains(s[1..], sub))
  }

  /** `sub` occurs in any string built around it. */
  lemma {:induction false} ContainsInfix(a: string, sub: string, b: string)
    ensures Contains(a + sub + b, sub)
    decreases |a|
  {
    if a == [] {
      assert (a + sub + b)[..|sub|] == sub;
    } else {
      assert (a + sub + b)[1..] == a[1..] + sub + b;
      ContainsInfix(a[1..], sub, b);
    }
  }

  /** A string containing `sub` contains every character of `sub`. */
  lemma {:induction false} ContainsChar(s: string, sub: string, k: nat)
    requires k < |sub|
    ensures Contains(s, sub) ==> sub[k] in s
    decreases |s|
  {
    if Contains(s, sub) {
      if StartsWith(s, sub) {
        assert s[k] == sub[k];
      } else {
        ContainsChar(s[1..], sub, k);
        assert sub[k] in s[1..];
      }
    }
  }

  /** `s.IndexOf(c)`: the position of the first `c`, if any. */
  function IndexOf(s: string, c: char): (r: Option<nat>)
    ensures r.None? <==> c !in s
    ensures r.Some? ==> r.value < |s| && s[r.value] == c && c !in s[..r.value]
    decreases |s|
  {
    if s == [] then None
    else if s[0] == c then Some(0)
    else match IndexOf(s[1..], c)
      case None => None
      case Some(i) =>
        assert s[1..][..i] == s[1..i + 1];
        Some(i + 1)
  }

  /** `s.Split(sep)`: the pieces between the separators, empty ones included. */
  function SplitOn(s: string, sep: char): (r: seq<string>)
    ensures |r| >= 1
    decreases |s|
  {
    if s == [] then [""]
    else
      var rest := SplitOn(s[1..], sep);
      if s[0] == sep then [""] + rest else [[s[0]] + rest[0]] + rest[1..]
  }

  /** `string.Join(sep, pieces)`: the inverse of `SplitOn`. */
  function Join(pieces: seq<string>, sep: char): string
    requires |pieces| >= 1
    decreases |pieces|
  {
    if |pieces| == 1 then pieces[0] else pieces[0] + [sep] + Join(pieces[1..], sep)
  }

  /** No piece contains `sep`. */
  predicate SeparatorFree(pieces: seq<string>, sep: char) {
    forall i :: 0 <= i < |pieces| ==> sep !in pieces[i]
  }

  /** Splitting loses nothing: the pieces hold no separator, and joining them
      gives back the string. */
  lemma {:induction false} JoinSplitOn(s: string, sep: char)
    ensures SeparatorFree(SplitOn(s, sep), sep)
    ensures Join(SplitOn(s, sep), sep) == s
    decreases |s|
  {
    if s != [] {
      var rest := SplitOn(s[1..], sep);
      JoinSplitOn(s[1..], sep);
      if s[0] == sep {
        assert ([""] + rest)[1..] == rest;
      } else {
        var r := [[s[0]] + rest[0]] + rest[1..];
        assert r[1..] == rest[1..];
        assert forall i :: 1 <= i < |r| ==> r[i] == rest[i];
        if |rest| > 1 {
          assert rest == [rest[0]] + rest[1..];
        }
      }
    }
  }

  /** Splitting a join of separator-free pieces gives back the pieces. */
  lemma {:induction false} SplitOnJoin(pieces: seq<string>, sep: char)
    requires |pieces| >= 1 && SeparatorFree(pieces, sep)
    ensures SplitOn(Join(pieces, sep), sep) == pieces
    decreases |pieces|, |pieces[0]|
  {
    var p := pieces[0];
    if |pieces| == 1 {
      SplitOnPiece(p, sep);
    } else {
      var tail := Join(pieces[1..], sep);
      if p == [] {
        assert Join(pieces, sep) == [sep] + tail;
        assert ([sep] + tail)[1..] == tail;
        assert forall i :: 0 <= i < |pieces[1..]| ==> pieces[1..][i] == pieces[i + 1];
        SplitOnJoin(pieces[1..], sep);
        assert pieces == [""] + pieces[1..];
      } else {
        var shorter := [p[1..]] + pieces[1..];
        assert shorter[1..] == pieces[1..];
        assert shorter[0] == p[1..];
        assert forall i :: 1 <= i < |shorter| ==> shorter[i] == pieces[i];
        assert Join(pieces, sep) == p + [sep] + tail;
        assert Join(shorter, sep) == p[1..] + [sep] + tail;
        assert Join(pieces, sep)[1..] == Join(shorter, sep);
        assert Join(pieces, sep)[0] == p[0] && p[0] != sep;
        SplitOnJoin(shorter, sep);
        assert [p[0]] + p[1..] == p;
        assert pieces == [[p[0]] + shorter[0]] + shorter[1..];
      }
    }
  }

  /** A separator-free string splits into itself alone. */
  lemma {:induction false} SplitOnPiece(p: string, sep: char)
    requires sep !in p
    ensures SplitOn(p, sep) == [p]
    decreases |p|
  {
    if p != [] {
      SplitOnPiece(p[1..], sep);
      assert [p[0]] + p[1..] == p;
    }
  }

  /** Splitting a string that starts with a separator-free piece and a
      separator gives that piece, then the pieces of the rest. */
  lemma {:induction false} SplitOnCons(a: string, b: string, sep: char)
    requires sep !in a
    ensures SplitOn(a + [sep] + b, sep) == [a] + SplitOn(b, sep)
    decreases |a|
  {
    if a == [] {
      assert a + [sep] + b == [sep] + b;
      assert ([sep] + b)[1..] == b;
    } else {
      var s := a + [sep] + b;
      assert s[1..] == a[1..] + [sep] + b;
      SplitOnCons(a[1..], b, sep);
      assert [a[0]] + a[1..] == a;
    }
  }

  /** Trims every piece and drops those that end up empty. */
  function CleanEntries(pieces: seq<string>): (r: seq<string>)
    ensures |r| <= |pieces|
    decreases |pieces|
  {
    if pieces == [] then []
    else
      var t := Trim(pieces[0]);
      var rest := CleanEntries(pieces[1..]);
      if t == "" then rest else [t] + rest
  }

  /** What `CleanEntries` keeps is non-empty and trimmed. */
  lemma {:induction false} CleanEntriesSpec(pieces: seq<string>)
    ensures forall i :: 0 <= i < |CleanEntries(pieces)| ==>
      CleanEntries(pieces)[i] != "" && Unpadded(CleanEntries(pieces)[i], WhiteSpace)
    decreases |pieces|
  {
    if pieces != [] {
      CleanEntriesSpec(pieces[1..]);
      TrimBySpec(pieces[0], WhiteSpace);
    }
  }

  /** `s.Split(sep, RemoveEmptyEntries | TrimEntries)`: the trimmed pieces
      between the separators, without the empty ones. */
  function SplitEntries(s: string, sep: char): seq<string> {
    CleanEntries(SplitOn(s, sep))
  }

  /** A leading entry that needs no trimming is the first entry. */
  lemma SplitEntriesCons(a: string, b: string, sep: char)
    requires sep !in a && a != [] && Unpadded(a, WhiteSpace)
    ensures SplitEntries(a + [sep] + b, sep) == [a] + SplitEntries(b, sep)
  {
    SplitOnCons(a, b, sep);
    TrimByUnchanged(a, WhiteSpace);
    assert ([a] + SplitOn(b, sep))[1..] == SplitOn(b, sep);
  }

  /** A separator-free string that needs no trimming is the only entry. */
  lemma SplitEntriesPiece(a: string, sep: char)
    requires sep !in a && a != [] && Unpadded(a, WhiteSpace)
    ensures SplitEntries(a, sep) == [a]
  {
    SplitOnPiece(a, sep);
    TrimByUnchanged(a, WhiteSpace);
  }

  /** `s.Split(sep, 2, TrimEntries)`: either the whole string, trimmed, when
      it has no separator, or the trimmed parts before and after the first
      separator, empty parts kept. */
  function SplitFirst(s: string, sep: char): (r: seq<string>)
    ensures |r| == 1 <==> sep !in s
    ensures |r| == 1 || |r| == 2
    ensures |r| == 1 ==> r[0] == Trim(s)
  {
    match IndexOf(s, sep)
    case None => [Trim(s)]
    case Some(i) => [Trim(s[..i]), Trim(s[i + 1..])]
  }

  /** With a separator, `SplitFirst` cuts at the first one: the part before
      it and everything after it, later separators included. */
  lemma SplitFirstAt(s: string, sep: char, i: nat)
    requires i < |s| && s[i] == sep && sep !in s[..i]
    ensures SplitFirst(s, sep) == [Trim(s[..i]), Trim(s[i + 1..])]
  {
    var j := IndexOf(s, sep).value;
    assert j == i;
  }
}
