/** The regular expressions of the KaTeX scripts, stated as the matcher runs them: an attempt at
    each start position from left to right, a lazy `.+?` that tries the closing delimiter before
    it consumes one more character, and `.` that skips line terminators unless the `s` flag is
    set. `has_latex`/`should_render` test `/\$(\$)?(.+?)\$(\$)?/s`, `has_asciimath` tests
    `` /`(.+?)`/s `` and `convert_to_latex` rewrites every match of `` /`(.+?)`/g ``. */
module Delimiters {
  import opened Dom

  /** The four ECMAScript line terminators, which `.` does not match without the `s` flag. */
  predicate IsLineTerminator(ch: char) {
    ch == '\n' || ch == '\r' || ch == '\U{2028}' || ch == '\U{2029}'
  }

  /** Every character of `s[lo..hi]` can be consumed by `.` (always so under the `s` flag). */
  predicate DotRun(s: string, lo: nat, hi: nat, dotAll: bool)
    requires lo <= hi <= |s|
  {
    dotAll || forall k :: lo <= k < hi ==> !IsLineTerminator(s[k])
  }

  /** The lazy tail of `.+?d`: having consumed at least one character, try `d` at `q`; if it is
      not there, let `.` take `s[q]` and try again one further. Gives the index of the closing
      delimiter. */
  function LazyClose(s: string, q: nat, d: char, dotAll: bool): (r: Option<nat>)
    requires q <= |s|
    ensures r.Some? ==> q <= r.value < |s| && s[r.value] == d
    decreases |s| - q
  {
    if q == |s| then None
    else if s[q] == d then Some(q)
    else if dotAll || !IsLineTerminator(s[q]) then LazyClose(s, q + 1, d, dotAll)
    else None
  }

  /** The lazy tail stops at the first `d` it reaches through characters `.` accepts, and fails
      only when no `d` is reachable that way. */
  lemma {:induction false} LazyCloseFirst(s: string, q: nat, d: char, dotAll: bool)
    requires q <= |s|
    ensures var r := LazyClose(s, q, d, dotAll);
      && (r.Some? ==> DotRun(s, q, r.value, dotAll) && forall k :: q <= k < r.value ==> s[k] != d)
      && (r.None? ==> forall j :: q <= j < |s| && s[j] == d ==> !DotRun(s, q, j, dotAll))
    decreases |s| - q
  {
    if q < |s| && s[q] != d && (dotAll || !IsLineTerminator(s[q])) {
      LazyCloseFirst(s, q + 1, d, dotAll);
      var r := LazyClose(s, q + 1, d, dotAll);
      if r.None? {
        forall j | q <= j < |s| && s[j] == d ensures !DotRun(s, q, j, dotAll) {
          if DotRun(s, q, j, dotAll) {
            assert DotRun(s, q + 1, j, dotAll);
          }
        }
      }
    }
  }

  /** One attempt of `d(.+?)d` at position `i`: the opening delimiter, one character for `.`,
      then the lazy tail. Gives the index of the closing delimiter. */
  function PairAt(s: string, i: nat, d: char, dotAll: bool): (r: Option<nat>)
    requires i <= |s|
    ensures r.Some? ==> i + 2 <= r.value < |s| && s[i] == d && s[r.value] == d
  {
    if i + 1 < |s| && s[i] == d && (dotAll || !IsLineTerminator(s[i + 1])) then
      LazyClose(s, i + 2, d, dotAll)
    else
      None
  }

  /** An attempt at `i` succeeds iff `s[i]` is the delimiter and another one at `i + 2` or later
      is reachable through characters `.` accepts; it closes at the first such delimiter. */
  lemma PairAtIff(s: string, i: nat, d: char, dotAll: bool)
    requires i <= |s|
    ensures PairAt(s, i, d, dotAll).Some? <==>
      i + 1 < |s| && s[i] == d && exists j :: i + 2 <= j < |s| && s[j] == d && DotRun(s, i + 1, j, dotAll)
    ensures PairAt(s, i, d, dotAll).Some? ==> DotRun(s, i + 1, PairAt(s, i, d, dotAll).value, dotAll)
    ensures PairAt(s, i, d, dotAll).Some? ==> forall k :: i + 2 <= k < PairAt(s, i, d, dotAll).value ==> s[k] != d
  {
    if i + 1 < |s| && s[i] == d && (dotAll || !IsLineTerminator(s[i + 1])) {
      LazyCloseFirst(s, i + 2, d, dotAll);
      var r := LazyClose(s, i + 2, d, dotAll);
      if r.Some? {
        assert DotRun(s, i + 1, r.value, dotAll);
      } else {
        forall j | i + 2 <= j < |s| && s[j] == d ensures !DotRun(s, i + 1, j, dotAll) {
          if DotRun(s, i + 1, j, dotAll) {
            assert DotRun(s, i + 2, j, dotAll);
          }
        }
      }
    } else if i + 1 < |s| && s[i] == d {
      forall j | i + 2 <= j < |s| && s[j] == d ensures !DotRun(s, i + 1, j, dotAll) {
        assert !IsLineTerminator(s[i + 1]) ==> dotAll;
      }
    }
  }

  /** `RegExp.prototype.test` for `d(.+?)d`: some attempt at `i` or later succeeds. */
  predicate PairFrom(s: string, i: nat, d: char, dotAll: bool)
    requires i <= |s|
    decreases |s| - i
  {
    i < |s| && (PairAt(s, i, d, dotAll).Some? || PairFrom(s, i + 1, d, dotAll))
  }

  /** Under the `s` flag a pair is found exactly when two delimiters stand at least two apart. */
  lemma {:induction false} PairFromDotAll(s: string, i: nat, d: char)
    requires i <= |s|
    ensures PairFrom(s, i, d, true) <==> exists a, b :: i <= a && a + 2 <= b < |s| && s[a] == d && s[b] == d
    decreases |s| - i
  {
    if i < |s| {
      PairFromDotAll(s, i + 1, d);
      PairAtIff(s, i, d, true);
      if PairAt(s, i, d, true).Some? {
        var b := PairAt(s, i, d, true).value;
        assert s[i] == d && s[b] == d;
      }
    }
  }

  /** The attempt of `\$(\$)?(.+?)\$(\$)?` at `i`: first with the optional `$` taken, then, on
      backtracking, without it. The trailing `(\$)?` always succeeds and decides nothing. */
  predicate DollarAt(s: string, i: nat)
    requires i <= |s|
  {
    i < |s| && s[i] == '$' &&
    ((i + 1 < |s| && s[i + 1] == '$' && PairAt(s, i + 1, '$', true).Some?) ||
     PairAt(s, i, '$', true).Some?)
  }

  predicate DollarFrom(s: string, i: nat)
    requires i <= |s|
    decreases |s| - i
  {
    i < |s| && (DollarAt(s, i) || DollarFrom(s, i + 1))
  }

  /** `has_latex` (KaTeXFlowy-with-AsciiMath.js) and the text test of `should_render`
      (KaTeXFlowy.js): `text.match(/\$(\$)?(.+?)\$(\$)?/s) !== null`. */
  predicate HasLatex(text: string) {
    DollarFrom(text, 0)
  }

  /** `has_asciimath`: `` text.match(/`(.+?)`/s) !== null ``. */
  predicate HasAsciiMath(text: string) {
    PairFrom(text, 0, '`', true)
  }

  /** The optional `$` of the LaTeX pattern accepts nothing the plain pair would not. */
  lemma {:induction false} DollarFromIsPair(s: string, i: nat)
    requires i <= |s|
    ensures DollarFrom(s, i) <==> PairFrom(s, i, '$', true)
    decreases |s| - i
  {
    if i < |s| {
      DollarFromIsPair(s, i + 1);
      if s[i] == '$' && i + 1 < |s| && s[i + 1] == '$' && PairAt(s, i + 1, '$', true).Some? {
        var b := PairAt(s, i + 1, '$', true).value;
        PairAtIff(s, i + 1, '$', true);
        PairAtIff(s, i, '$', true);
        assert i + 2 <= b && s[b] == '$' && DotRun(s, i + 1, b, true);
        assert PairAt(s, i, '$', true).Some?;
      }
    }
  }

  /** `has_latex` holds iff the text has two `$` at positions `i < j` with `j >= i + 2`; a
      newline may stand between them. So "$$" does not match, "$a$" and "$$$" do. */
  lemma HasLatexIff(text: string)
    ensures HasLatex(text) <==> exists i, j :: 0 <= i && i + 2 <= j < |text| && text[i] == '$' && text[j] == '$'
  {
    DollarFromIsPair(text, 0);
    PairFromDotAll(text, 0, '$');
  }

  /** `has_asciimath` holds iff the text has two backticks at least two positions apart, newlines
      allowed between them. */
  lemma HasAsciiMathIff(text: string)
    ensures HasAsciiMath(text) <==> exists i, j :: 0 <= i && i + 2 <= j < |text| && text[i] == '`' && text[j] == '`'
  {
    PairFromDotAll(text, 0, '`');
  }

  /** The piece `replaceAll` sees at one point of its scan: a character outside every match, or
      a match `` `inner` `` (inner is the capture group p1). */
  datatype Piece = Kept(ch: char) | Math(inner: string)

  /** The source text one piece covers. */
  function Text(p: Piece): string {
    match p
    case Kept(c) => [c]
    case Math(t) => "`" + t + "`"
  }

  /** The source text a sequence of pieces covers. */
  function Source(ps: seq<Piece>): string {
    if ps == [] then []
    else (match ps[0] case Kept(c) => [c] case Math(t) => "`" + t + "`") + Source(ps[1..])
  }

  /** What `replaceAll` writes for a sequence of pieces: each match becomes
      `'$' + parse(p1) + '$'`, everything else is copied. */
  function Rewrite(ps: seq<Piece>, parse: string -> string): string {
    if ps == [] then []
    else (match ps[0] case Kept(c) => [c] case Math(t) => "$" + parse(t) + "$") + Rewrite(ps[1..], parse)
  }

  /** An inner part `convert_to_latex` can match: non-empty, on one line, and with no backtick
      after its first character (the lazy `.+?` stops at the first backtick it may). */
  predicate InnerOk(t: string) {
    |t| >= 1 && (forall k :: 0 <= k < |t| ==> !IsLineTerminator(t[k])) && '`' !in t[1..]
  }

  /** The piece the matcher takes at offset `o`: the match of `` /`(.+?)`/ `` that starts there,
      or the single character at `o` when none does. */
  function FirstStep(s: string, o: nat): Piece
    requires o < |s|
  {
    match PairAt(s, o, '`', false)
    case Some(m) => Math(s[o + 1..m])
    case None => Kept(s[o])
  }

  /** The piece the matcher takes at each offset of `s`. */
  function Steps(s: string): seq<Piece> {
    seq(|s|, o requires 0 <= o < |s| => FirstStep(s, o))
  }

  /** Read from offset `i` to the end of `steps`, `ps` takes the piece `steps` names where the
      piece before it ends, and its last piece ends at the end. */
  predicate Follows(steps: seq<Piece>, i: nat, ps: seq<Piece>)
    decreases ps
  {
    if ps == [] then i == |steps|
    else i < |steps| && ps[0] == steps[i] && Follows(steps, i + |Text(ps[0])|, ps[1..])
  }

  /** Read from offset `i` to the end of `s`, `ps` is what the matcher takes: each piece is the
      one it finds where the piece before it ends, and the last one ends at the end of `s`. */
  predicate FollowsMatcher(s: string, i: nat, ps: seq<Piece>) {
    Follows(Steps(s), i, ps)
  }

  /** The global scan of `` /`(.+?)`/g `` from position `i`: the leftmost match at or after `i`,
      then the rest after it, without overlap. Its pieces cover the text, each is what the
      matcher finds at its place (so no match starts at a kept backtick); `ScanUnique` shows that
      no other cover of the text has that property. */
  function Scan(s: string, i: nat): (ps: seq<Piece>)
    requires i <= |s|
    ensures Source(ps) == s[i..]
    ensures AllInnerOk(ps)
    ensures FollowsMatcher(s, i, ps)
    decreases |s| - i
  {
    if i == |s| then []
    else match PairAt(s, i, '`', false)
      case Some(m) =>
        var rest := Scan(s, m + 1);
        PairInnerOk(s, i, m);
        MatchFollows(s, i, m, rest);
        MatchCovers(s, i, m, rest);
        AllInnerOkCons(Math(s[i + 1..m]), rest);
        [Math(s[i + 1..m])] + rest
      case None =>
        var rest := Scan(s, i + 1);
        KeptFollows(s, i, rest);
        KeptCovers(s, i, rest);
        AllInnerOkCons(Kept(s[i]), rest);
        [Kept(s[i])] + rest
  }

  /** Every match piece has an inner part `convert_to_latex` can match. */
  predicate AllInnerOk(ps: seq<Piece>) {
    forall k :: 0 <= k < |ps| && ps[k].Math? ==> InnerOk(ps[k].inner)
  }

  lemma AllInnerOkCons(p: Piece, rest: seq<Piece>)
    requires (p.Math? ==> InnerOk(p.inner)) && AllInnerOk(rest)
    ensures AllInnerOk([p] + rest)
  {
    var ps := [p] + rest;
    forall k | 0 <= k < |ps| && ps[k].Math? ensures InnerOk(ps[k].inner) {
      if k > 0 {
        assert ps[k] == rest[k - 1];
      }
    }
  }

  lemma MatchCovers(s: string, i: nat, m: nat, rest: seq<Piece>)
    requires i + 2 <= m < |s| && s[i] == '`' && s[m] == '`' && Source(rest) == s[m + 1..]
    ensures Source([Math(s[i + 1..m])] + rest) == s[i..]
  {
    var t := s[i + 1..m];
    SourceCons(Math(t), rest);
    assert s[i..m + 1] == [s[i]] + t + [s[m]];
    assert s[i..] == s[i..m + 1] + s[m + 1..];
  }

  lemma KeptCovers(s: string, i: nat, rest: seq<Piece>)
    requires i < |s| && Source(rest) == s[i + 1..]
    ensures Source([Kept(s[i])] + rest) == s[i..]
  {
    SourceCons(Kept(s[i]), rest);
    assert s[i..] == [s[i]] + s[i + 1..];
  }

  /** The text between a backtick pair found without the `s` flag is a valid inner run. */
  lemma PairInnerOk(s: string, i: nat, m: nat)
    requires i < |s| && PairAt(s, i, '`', false) == Some(m)
    ensures i + 1 <= m <= |s| && InnerOk(s[i + 1..m])
  {
    PairAtIff(s, i, '`', false);
    assert DotRun(s, i + 1, m, false);
    var t := s[i + 1..m];
    forall k | 0 <= k < |t| ensures !IsLineTerminator(t[k]) {
      assert t[k] == s[i + 1 + k];
    }
    var u := t[1..];
    forall k | 0 <= k < |u| ensures u[k] != '`' {
      assert u[k] == s[i + 2 + k];
    }
  }

  lemma SourceCons(p: Piece, q: seq<Piece>)
    ensures Source([p] + q) == Text(p) + Source(q)
  {
    assert ([p] + q)[1..] == q;
  }

  lemma FollowsCons(steps: seq<Piece>, i: nat, p: Piece, rest: seq<Piece>)
    requires i < |steps| && steps[i] == p && Follows(steps, i + |Text(p)|, rest)
    ensures Follows(steps, i, [p] + rest)
  {
    var ps := [p] + rest;
    assert ps[1..] == rest;
  }

  lemma MatchFollows(s: string, i: nat, m: nat, rest: seq<Piece>)
    requires i + 2 <= m < |s| && PairAt(s, i, '`', false) == Some(m) && FollowsMatcher(s, m + 1, rest)
    ensures FollowsMatcher(s, i, [Math(s[i + 1..m])] + rest)
  {
    var t, steps := s[i + 1..m], Steps(s);
    assert |Text(Math(t))| == m + 1 - i;
    assert steps[i] == Math(t) by {
      assert FirstStep(s, i) == Math(t);
    }
    FollowsCons(steps, i, Math(t), rest);
  }

  lemma KeptFollows(s: string, i: nat, rest: seq<Piece>)
    requires i < |s| && PairAt(s, i, '`', false).None? && FollowsMatcher(s, i + 1, rest)
    ensures FollowsMatcher(s, i, [Kept(s[i])] + rest)
  {
    assert Steps(s)[i] == FirstStep(s, i) == Kept(s[i]);
    FollowsCons(Steps(s), i, Kept(s[i]), rest);
  }

  /** Any sequence of pieces the matcher takes from `i` is the scan itself. */
  lemma ScanUnique(s: string, i: nat, qs: seq<Piece>)
    requires i <= |s| && FollowsMatcher(s, i, qs)
    ensures qs == Scan(s, i)
  {
    CoversAgree(Steps(s), i, qs, Scan(s, i));
  }

  /** Two sequences of pieces that both take what `steps` names from `i` are the same. */
  lemma {:induction false} CoversAgree(steps: seq<Piece>, i: nat, ps: seq<Piece>, qs: seq<Piece>)
    requires Follows(steps, i, ps) && Follows(steps, i, qs)
    ensures ps == qs
    decreases ps
  {
    if ps != [] && qs != [] {
      CoversAgree(steps, i + |Text(ps[0])|, ps[1..], qs[1..]);
      assert ps == [ps[0]] + ps[1..];
      assert qs == [qs[0]] + qs[1..];
    }
  }

  /** Where the piece at index `k` starts, reading the pieces from offset `i`. */
  function Offset(i: nat, ps: seq<Piece>, k: nat): nat
    requires k <= |ps|
    decreases k
  {
    if k == 0 then i else Offset(i + |Text(ps[0])|, ps[1..], k - 1)
  }

  /** The piece at index `k` starts after the text of the pieces before it. */
  lemma {:induction false} OffsetIsSource(i: nat, ps: seq<Piece>, k: nat)
    requires k <= |ps|
    ensures Offset(i, ps, k) == i + |Source(ps[..k])|
    decreases k
  {
    if k == 0 {
      assert ps[..0] == [];
    } else {
      OffsetIsSource(i + |Text(ps[0])|, ps[1..], k - 1);
      assert ps[..k] == [ps[0]] + ps[1..][..k - 1];
      SourceCons(ps[0], ps[1..][..k - 1]);
    }
  }

  /** The piece at index `k` is the one `steps` names where it starts. */
  lemma {:induction false} FollowsAt(steps: seq<Piece>, i: nat, ps: seq<Piece>, k: nat)
    requires Follows(steps, i, ps) && k < |ps|
    ensures Offset(i, ps, k) < |steps| && steps[Offset(i, ps, k)] == ps[k]
    decreases k
  {
    if k > 0 {
      FollowsAt(steps, i + |Text(ps[0])|, ps[1..], k - 1);
      assert ps[1..][k - 1] == ps[k];
    }
  }

  /** A backtick the matcher keeps starts no match. */
  lemma KeptBacktickAt(s: string, o: nat)
    requires o < |s| && FirstStep(s, o) == Kept('`')
    ensures PairAt(s, o, '`', false).None?
  {
  }

  /** No match starts at a backtick the matcher keeps: every one-line backtick pair whose opening
      backtick lies outside the earlier matches is converted. */
  lemma KeptBacktickNoMatch(s: string, i: nat, ps: seq<Piece>)
    requires FollowsMatcher(s, i, ps)
    ensures forall k :: 0 <= k < |ps| && ps[k] == Kept('`') ==>
      i + |Source(ps[..k])| < |s| && PairAt(s, i + |Source(ps[..k])|, '`', false).None?
  {
    forall k | 0 <= k < |ps| && ps[k] == Kept('`')
      ensures i + |Source(ps[..k])| < |s| && PairAt(s, i + |Source(ps[..k])|, '`', false).None?
    {
      var o := Offset(i, ps, k);
      FollowsAt(Steps(s), i, ps, k);
      OffsetIsSource(i, ps, k);
      KeptBacktickAt(s, o);
    }
  }

  /** `convert_to_latex(str)`: `str.replaceAll(/`(.+?)`/g, m => '$' + parse(p1) + '$')`, with the
      AsciiMath parser left abstract. The result rewrites exactly the matches the matcher finds
      from left to right, each as `'$' + parse(inner) + '$'`, and copies everything else. */
  function ConvertToLatex(str: string, parse: string -> string): (r: string)
    ensures forall ps :: FollowsMatcher(str, 0, ps) ==> r == Rewrite(ps, parse)
  {
    MatchesAreScan(str);
    Rewrite(Scan(str, 0), parse)
  }

  /** The only sequence of pieces the matcher takes through a text is its scan. */
  lemma MatchesAreScan(str: string)
    ensures forall ps :: FollowsMatcher(str, 0, ps) ==> ps == Scan(str, 0)
  {
    forall ps | FollowsMatcher(str, 0, ps) ensures ps == Scan(str, 0) {
      ScanUnique(str, 0, ps);
    }
  }

  lemma {:induction false} RewriteKeptOnly(ps: seq<Piece>, parse: string -> string)
    requires forall k :: 0 <= k < |ps| ==> ps[k].Kept?
    ensures Rewrite(ps, parse) == Source(ps)
  {
    if ps != [] {
      RewriteKeptOnly(ps[1..], parse);
    }
  }

  lemma {:induction false} SourceMathHasBacktick(ps: seq<Piece>, k: nat)
    requires k < |ps| && ps[k].Math?
    ensures '`' in Source(ps)
  {
    if k == 0 {
      assert Source(ps)[0] == '`';
    } else {
      SourceMathHasBacktick(ps[1..], k - 1);
      assert Source(ps) == Text(ps[0]) + Source(ps[1..]);
    }
  }

  /** A string without a backtick comes back unchanged. */
  lemma NoBacktickUnchanged(str: string, parse: string -> string)
    requires '`' !in str
    ensures ConvertToLatex(str, parse) == str
  {
    var ps := Scan(str, 0);
    forall k | 0 <= k < |ps| ensures ps[k].Kept? {
      if ps[k].Math? {
        SourceMathHasBacktick(ps, k);
      }
    }
    RewriteKeptOnly(ps, parse);
  }

  /** `has_asciimath` (with the `s` flag) sees a backtick pair around a line break, but
      `convert_to_latex` (without it) leaves that text as it is. */
  lemma NewlinePairDetectedNotConverted(parse: string -> string)
    ensures HasAsciiMath("`a\nb`")
    ensures ConvertToLatex("`a\nb`", parse) == "`a\nb`"
  {
    NewlinePairDetected();
    NewlinePairScan();
    var ps := Scan("`a\nb`", 0);
    RewriteKeptOnly(ps, parse);
  }

  lemma NewlinePairDetected()
    ensures HasAsciiMath("`a\nb`")
  {
    var s := "`a\nb`";
    HasAsciiMathIff(s);
    assert 0 + 2 <= 4 < |s| && s[0] == '`' && s[4] == '`';
  }

  /** Without the `s` flag the opening backtick of "`a\nb`" finds no partner, so every character
      is kept. */
  lemma NewlinePairScan()
    ensures Scan("`a\nb`", 0) == [Kept('`'), Kept('a'), Kept('\n'), Kept('b'), Kept('`')]
  {
    var s := "`a\nb`";
    assert PairAt(s, 0, '`', false).None? by {
      PairAtIff(s, 0, '`', false);
      assert s[2] == '\n' && IsLineTerminator(s[2]);
      assert !DotRun(s, 1, 4, false);
    }
    assert Scan(s, 0) == [Kept('`')] + Scan(s, 1);
    assert Scan(s, 1) == [Kept('a')] + Scan(s, 2);
    assert Scan(s, 2) == [Kept('\n')] + Scan(s, 3);
    assert Scan(s, 3) == [Kept('b')] + Scan(s, 4);
    assert Scan(s, 4) == [Kept('`')];
  }

  /** A one-line pair becomes `$...$` around the parser's output; the text around it stays. */
  lemma OneLinePairConverted(parse: string -> string)
    ensures ConvertToLatex("x`a`y", parse) == "x$" + parse("a") + "$y"
  {
    var s := "x`a`y";
    assert PairAt(s, 0, '`', false).None?;
    assert LazyClose(s, 3, '`', false) == Some(3);
    assert PairAt(s, 1, '`', false) == Some(3);
    assert s[2..3] == "a";
    assert Scan(s, 0) == [Kept('x'), Math("a"), Kept('y')];
  }

  /** Matches do not overlap: in "`a`b`" the backtick that closes the first match does not open
      a second one, so the pair at positions 2..4 is left as it is. */
  lemma ClosingBacktickNotReopened(parse: string -> string)
    ensures Scan("`a`b`", 0) == [Math("a"), Kept('b'), Kept('`')]
    ensures ConvertToLatex("`a`b`", parse) == "$" + parse("a") + "$b`"
  {
    var s := "`a`b`";
    assert LazyClose(s, 2, '`', false) == Some(2);
    assert PairAt(s, 0, '`', false) == Some(2);
    assert s[1..2] == "a";
    assert PairAt(s, 3, '`', false).None?;
    assert PairAt(s, 4, '`', false).None?;
    assert Scan(s, 0) == [Math("a")] + Scan(s, 3);
    assert Scan(s, 3) == [Kept('b')] + Scan(s, 4);
  }
}
