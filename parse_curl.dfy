/** `parseCurlCommand` of `src/shared/parseCurl.js`: a curl command line is
    cleaned, split into tokens by one regular expression, and scanned left to
    right for `-X`, `-H`, the data options and the URL. */
module ParseCurl {
  import opened Js

  // ---------------------------------------------------------------------------
  // Characters
  // ---------------------------------------------------------------------------

  /** `\s` in a JavaScript regular expression; `String.prototype.trim` removes the same set. */
  predicate IsSpace(c: char) {
    var n := c as int;
    || n == 0x20 || 0x09 <= n <= 0x0D || n == 0xA0 || n == 0x1680 || 0x2000 <= n <= 0x200A
    || n == 0x2028 || n == 0x2029 || n == 0x202F || n == 0x205F || n == 0x3000 || n == 0xFEFF
  }

  /** `['"]` */
  predicate IsQuote(c: char) {
    c == '"' || c == '\''
  }

  // ---------------------------------------------------------------------------
  // Cleaning: `curl.replace(/\\\n/g, ' ').replace(/\s+/g, ' ')`
  // ---------------------------------------------------------------------------

  /** `replace(/\\\n/g, ' ')`: each backslash-newline pair, scanned left to right, becomes a space. */
  function ReplaceContinuations(s: string): (r: string)
    ensures |r| <= |s|
    ensures |s| > 0 ==> |r| > 0 && (r[0] == s[0] || r[0] == ' ')
    ensures forall i :: 0 <= i < |r| - 1 && r[i] == '\\' ==> r[i + 1] != '\n'
  {
    if |s| == 0 then ""
    else if |s| >= 2 && s[0] == '\\' && s[1] == '\n' then " " + ReplaceContinuations(s[2..])
    else [s[0]] + ReplaceContinuations(s[1..])
  }

  /** The input with its leading whitespace removed. */
  function DropSpaces(s: string): (r: string)
    ensures |r| <= |s| && r == s[|s| - |r|..]
    ensures forall i :: 0 <= i < |s| - |r| ==> IsSpace(s[i])
    ensures r == "" || !IsSpace(r[0])
  {
    if |s| > 0 && IsSpace(s[0]) then DropSpaces(s[1..]) else s
  }

  /** `replace(/\s+/g, ' ')`: every maximal run of whitespace becomes one space. */
  function CollapseSpaces(s: string): (r: string)
    ensures |s| > 0 ==> |r| > 0 && (if IsSpace(s[0]) then r[0] == ' ' else r[0] == s[0])
  {
    if |s| == 0 then ""
    else if IsSpace(s[0]) then " " + CollapseSpaces(DropSpaces(s[1..]))
    else [s[0]] + CollapseSpaces(s[1..])
  }

  /** After collapsing, the only whitespace is `' '`, never two in a row. */
  lemma {:induction false} CollapseSingleSpaced(s: string)
    ensures SingleSpaced(CollapseSpaces(s))
    decreases |s|
  {
    if |s| > 0 {
      var rest := if IsSpace(s[0]) then DropSpaces(s[1..]) else s[1..];
      var head := if IsSpace(s[0]) then ' ' else s[0];
      var c := CollapseSpaces(rest);
      var r := [head] + c;
      assert CollapseSpaces(s) == r;
      CollapseSingleSpaced(rest);
      assert IsSpace(s[0]) ==> c == "" || c[0] != ' ';
      forall i | 0 <= i < |r| && IsSpace(r[i])
        ensures r[i] == ' '
      {
        if i > 0 {
          assert r[i] == c[i - 1];
        }
      }
      forall i | 0 <= i < |r| - 1
        ensures !(r[i] == ' ' && r[i + 1] == ' ')
      {
        if i > 0 {
          assert r[i] == c[i - 1] && r[i + 1] == c[i];
        } else {
          assert r[1] == c[0];
        }
      }
    }
  }

  /** The string line 4 of the source produces: its only whitespace is single plain spaces. */
  function Clean(curl: string): (r: string)
    ensures SingleSpaced(r)
  {
    var joined := ReplaceContinuations(curl);
    CollapseSingleSpaced(joined);
    CollapseSpaces(joined)
  }

  /** The characters that are not whitespace, in order. */
  function NonSpace(s: string): string {
    if |s| == 0 then ""
    else (if IsSpace(s[0]) then "" else [s[0]]) + NonSpace(s[1..])
  }

  /** Whitespace occurs only as single plain spaces: what `Clean` produces. */
  predicate SingleSpaced(s: string) {
    && (forall i :: 0 <= i < |s| && IsSpace(s[i]) ==> s[i] == ' ')
    && (forall i :: 0 <= i < |s| - 1 ==> !(s[i] == ' ' && s[i + 1] == ' '))
  }

  /** Collapsing whitespace neither adds, drops nor reorders any other character. */
  lemma {:induction false} CollapseKeepsNonSpace(s: string)
    ensures NonSpace(CollapseSpaces(s)) == NonSpace(s)
  {
    if |s| > 0 {
      assert s == [s[0]] + s[1..];
      NonSpaceCons(s[0], s[1..]);
      if IsSpace(s[0]) {
        var t := DropSpaces(s[1..]);
        DropSpacesNonSpace(s[1..]);
        CollapseKeepsNonSpace(t);
        NonSpaceCons(' ', CollapseSpaces(t));
      } else {
        CollapseKeepsNonSpace(s[1..]);
        NonSpaceCons(s[0], CollapseSpaces(s[1..]));
      }
    }
  }

  lemma NonSpaceCons(c: char, t: string)
    ensures NonSpace([c] + t) == (if IsSpace(c) then "" else [c]) + NonSpace(t)
  {
    assert ([c] + t)[1..] == t;
  }

  lemma {:induction false} DropSpacesNonSpace(s: string)
    ensures NonSpace(DropSpaces(s)) == NonSpace(s)
  {
    if |s| > 0 && IsSpace(s[0]) {
      DropSpacesNonSpace(s[1..]);
    }
  }

  /** A string already single-spaced comes out of `Clean` unchanged. */
  lemma {:induction false} CleanFixpoint(s: string)
    requires SingleSpaced(s)
    ensures Clean(s) == s
  {
    ContinuationsFixpoint(s);
    CollapseFixpoint(s);
  }

  lemma {:induction false} ContinuationsFixpoint(s: string)
    requires forall i :: 0 <= i < |s| ==> s[i] != '\n'
    ensures ReplaceContinuations(s) == s
  {
    if |s| > 0 {
      ContinuationsFixpoint(s[1..]);
    }
  }

  lemma {:induction false} CollapseFixpoint(s: string)
    requires SingleSpaced(s)
    ensures CollapseSpaces(s) == s
  {
    if |s| > 0 {
      if IsSpace(s[0]) {
        assert s[0] == ' ';
        if |s| > 1 {
          assert !IsSpace(s[1]);
        }
        assert DropSpaces(s[1..]) == s[1..];
      }
      CollapseFixpoint(s[1..]);
    }
  }

  /** The left-to-right scan for backslash-newline splits at a seam that is not itself such a pair. */
  lemma {:induction false} ContinuationsAppend(a: string, t: string)
    requires !(|a| > 0 && a[|a| - 1] == '\\' && |t| > 0 && t[0] == '\n')
    ensures ReplaceContinuations(a + t) == ReplaceContinuations(a) + ReplaceContinuations(t)
    decreases |a|
  {
    var u := a + t;
    if |a| == 0 {
      assert u == t;
    } else if |a| >= 2 && a[0] == '\\' && a[1] == '\n' {
      assert u[2..] == a[2..] + t;
      ContinuationsAppend(a[2..], t);
      assert ReplaceContinuations(u) == " " + ReplaceContinuations(a[2..] + t) by {
        assert u[0] == '\\' && u[1] == '\n';
      }
      assert ReplaceContinuations(a) == " " + ReplaceContinuations(a[2..]);
      SeqAssoc(" ", ReplaceContinuations(a[2..]), ReplaceContinuations(t));
    } else {
      assert u[1..] == a[1..] + t;
      ContinuationsAppend(a[1..], t) by {
        if |a| >= 2 {
          assert a[1..][|a| - 2] == a[|a| - 1];
        }
      }
      assert ReplaceContinuations(u) == [a[0]] + ReplaceContinuations(a[1..] + t) by {
        assert u[0] == a[0];
        assert |a| >= 2 ==> u[1] == a[1];
        assert |a| == 1 && |t| > 0 ==> u[1] == t[0];
      }
      assert ReplaceContinuations(a) == [a[0]] + ReplaceContinuations(a[1..]);
      SeqAssoc([a[0]], ReplaceContinuations(a[1..]), ReplaceContinuations(t));
    }
  }

  lemma SeqAssoc(x: string, y: string, z: string)
    ensures x + (y + z) == (x + y) + z
  {
  }

  /** What may separate two words: whitespace characters and backslash-newline pairs, in any mix. */
  predicate Gap(g: string)
    decreases |g|
  {
    || |g| == 0
    || (IsSpace(g[0]) && Gap(g[1..]))
    || (|g| >= 2 && g[0] == '\\' && g[1] == '\n' && Gap(g[2..]))
  }

  /** A gap comes out of the continuation pass as whitespace only, and non-empty if it was. */
  lemma {:induction false} GapContinuations(g: string)
    requires Gap(g)
    ensures |g| > 0 ==> |ReplaceContinuations(g)| > 0
    ensures forall i :: 0 <= i < |ReplaceContinuations(g)| ==> IsSpace(ReplaceContinuations(g)[i])
    decreases |g|
  {
    if |g| > 0 {
      var r := ReplaceContinuations(g);
      if IsSpace(g[0]) {
        GapContinuations(g[1..]);
        assert r == [g[0]] + ReplaceContinuations(g[1..]);
      } else {
        GapContinuations(g[2..]);
        assert r == " " + ReplaceContinuations(g[2..]);
      }
    }
  }

  /** Dropping leading whitespace from a concatenation. */
  lemma {:induction false} DropSpacesAppend(a: string, b: string)
    ensures DropSpaces(a + b) == if DropSpaces(a) == "" then DropSpaces(b) else DropSpaces(a) + b
    decreases |a|
  {
    if |a| == 0 {
      assert a + b == b;
    } else {
      assert (a + b)[0] == a[0];
      assert (a + b)[1..] == a[1..] + b;
      if IsSpace(a[0]) {
        DropSpacesAppend(a[1..], b);
      }
    }
  }

  /** Collapsing splits at a seam that does not fall inside a whitespace run. */
  lemma {:induction false} CollapseAppend(a: string, b: string)
    requires |a| == 0 || |b| == 0 || !IsSpace(a[|a| - 1]) || !IsSpace(b[0])
    ensures CollapseSpaces(a + b) == CollapseSpaces(a) + CollapseSpaces(b)
    decreases |a|, 1
  {
    var u := a + b;
    if |a| == 0 {
      assert u == b;
    } else if IsSpace(a[0]) {
      CollapseAppendRun(a, b);
    } else {
      assert u[0] == a[0];
      assert u[1..] == a[1..] + b;
      CollapseAppend(a[1..], b) by {
        if |a| > 1 {
          assert a[1..][|a| - 2] == a[|a| - 1];
        }
      }
      assert CollapseSpaces(u) == [a[0]] + CollapseSpaces(a[1..] + b);
      assert CollapseSpaces(a) == [a[0]] + CollapseSpaces(a[1..]);
      SeqAssoc([a[0]], CollapseSpaces(a[1..]), CollapseSpaces(b));
    }
  }

  /** `CollapseAppend` when `a` opens with whitespace. */
  lemma {:induction false} CollapseAppendRun(a: string, b: string)
    requires |a| > 0 && IsSpace(a[0])
    requires |b| == 0 || !IsSpace(a[|a| - 1]) || !IsSpace(b[0])
    ensures CollapseSpaces(a + b) == CollapseSpaces(a) + CollapseSpaces(b)
    decreases |a|, 0
  {
    RunHead(a, b);
    var d := DropSpaces(a[1..]);
    DropSpacesAppend(a[1..], b);
    RunLast(a);
    if d == "" {
      assert DropSpaces(a[1..] + b) == b;
      assert CollapseSpaces(a) == " " by {
        assert CollapseSpaces(d) == "";
      }
    } else {
      assert DropSpaces(a[1..] + b) == d + b;
      CollapseAppend(d, b);
      SeqAssoc(" ", CollapseSpaces(d), CollapseSpaces(b));
    }
  }

  /** Collapsing a text that opens with whitespace, alone and followed by `b`. */
  lemma RunHead(a: string, b: string)
    requires |a| > 0 && IsSpace(a[0])
    ensures CollapseSpaces(a + b) == " " + CollapseSpaces(DropSpaces(a[1..] + b))
    ensures CollapseSpaces(a) == " " + CollapseSpaces(DropSpaces(a[1..]))
  {
    var u := a + b;
    assert u[0] == a[0];
    assert u[1..] == a[1..] + b;
  }

  /** The last character of a text that opens with whitespace is the last one
      left after dropping that whitespace, or whitespace itself. */
  lemma RunLast(a: string)
    requires |a| > 0 && IsSpace(a[0])
    ensures var d := DropSpaces(a[1..]);
      (d == "" ==> IsSpace(a[|a| - 1])) && (d != "" ==> d[|d| - 1] == a[|a| - 1])
  {
    var d := DropSpaces(a[1..]);
    if d == "" {
      if |a| > 1 {
        DroppedAllSpaces(a[1..]);
        assert a[1..][|a| - 2] == a[|a| - 1];
      }
    } else {
      assert d == a[1..][|a| - 1 - |d|..];
    }
  }

  lemma DroppedAllSpaces(s: string)
    requires |s| > 0 && DropSpaces(s) == ""
    ensures IsSpace(s[|s| - 1])
  {
  }

  /** A non-empty run of whitespace collapses to one space. */
  lemma CollapseRun(sp: string)
    requires |sp| > 0 && forall i :: 0 <= i < |sp| ==> IsSpace(sp[i])
    ensures CollapseSpaces(sp) == " "
  {
  }

  /** A simple word that neither cleaning pass can change. */
  predicate Word(w: string) {
    SimpleArg(w) && SingleSpaced(w) && w[|w| - 1] != '\\'
  }

  lemma WordEdges(w: string)
    requires Word(w)
    ensures !IsSpace(w[0]) && !IsSpace(w[|w| - 1])
    ensures forall i :: 0 <= i < |w| ==> w[i] != '\n'
  {
    SimpleArgEdges(w);
    forall i | 0 <= i < |w|
      ensures w[i] != '\n'
    {
      if w[i] == '\n' {
        assert IsSpace(w[i]);
      }
    }
  }

  /** Words with the gap `gaps[k]` between word `k` and word `k + 1`. */
  function Spaced(ws: seq<string>, gaps: seq<string>): (s: string)
    requires |ws| == |gaps| + 1
    ensures |ws[0]| <= |s| && s[..|ws[0]|] == ws[0]
    decreases |gaps|
  {
    if |gaps| == 0 then ws[0] else ws[0] + gaps[0] + Spaced(ws[1..], gaps[1..])
  }

  /** Every gap after the continuation pass. */
  function Continued(gaps: seq<string>): (r: seq<string>)
    ensures |r| == |gaps|
    ensures forall k :: 0 <= k < |gaps| ==> r[k] == ReplaceContinuations(gaps[k])
  {
    seq(|gaps|, k requires 0 <= k < |gaps| => ReplaceContinuations(gaps[k]))
  }

  /** The continuation pass touches only the gaps between words. */
  lemma {:induction false} ContinuationsOfSpaced(ws: seq<string>, gaps: seq<string>)
    requires |ws| == |gaps| + 1
    requires forall k :: 0 <= k < |ws| ==> Word(ws[k])
    ensures ReplaceContinuations(Spaced(ws, gaps)) == Spaced(ws, Continued(gaps))
    decreases |gaps|
  {
    WordEdges(ws[0]);
    if |gaps| == 0 {
      ContinuationsFixpoint(ws[0]);
    } else {
      var rest := Spaced(ws[1..], gaps[1..]);
      assert Word(ws[1]);
      WordEdges(ws[1]);
      ContinuationsFixpoint(ws[0]);
      ContinuationsStep(ws[0], gaps[0], rest);
      assert forall k :: 0 <= k < |ws| - 1 ==> ws[1..][k] == ws[k + 1];
      ContinuationsOfSpaced(ws[1..], gaps[1..]);
      assert Continued(gaps)[1..] == Continued(gaps[1..]);
    }
  }

  /** One word, one gap and the rest, through the continuation pass. */
  lemma ContinuationsStep(w: string, g: string, rest: string)
    requires |w| > 0 && w[|w| - 1] != '\\'
    requires |rest| > 0 && rest[0] != '\n'
    ensures ReplaceContinuations(w + g + rest)
         == ReplaceContinuations(w) + ReplaceContinuations(g) + ReplaceContinuations(rest)
  {
    var tail := g + rest;
    assert ReplaceContinuations(tail) == ReplaceContinuations(g) + ReplaceContinuations(rest) by {
      ContinuationsAppend(g, rest);
    }
    assert ReplaceContinuations(w + tail) == ReplaceContinuations(w) + ReplaceContinuations(tail) by {
      ContinuationsAppend(w, tail);
    }
    SeqAssoc(w, g, rest);
    SeqAssoc(ReplaceContinuations(w), ReplaceContinuations(g), ReplaceContinuations(rest));
  }

  /** Collapsing turns every whitespace gap between words into one space. */
  lemma {:induction false} CollapseOfSpaced(ws: seq<string>, sps: seq<string>)
    requires |ws| == |sps| + 1
    requires forall k :: 0 <= k < |ws| ==> Word(ws[k])
    requires forall k :: 0 <= k < |sps| ==> |sps[k]| > 0 && forall i :: 0 <= i < |sps[k]| ==> IsSpace(sps[k][i])
    ensures CollapseSpaces(Spaced(ws, sps)) == Join(ws)
    decreases |sps|
  {
    WordEdges(ws[0]);
    if |sps| == 0 {
      CollapseFixpoint(ws[0]);
    } else {
      var rest := Spaced(ws[1..], sps[1..]);
      assert Word(ws[1]);
      WordEdges(ws[1]);
      CollapseFixpoint(ws[0]);
      CollapseRun(sps[0]);
      CollapseStep(ws[0], sps[0], rest);
      assert forall k :: 0 <= k < |ws| - 1 ==> ws[1..][k] == ws[k + 1];
      assert forall k :: 0 <= k < |sps| - 1 ==> sps[1..][k] == sps[k + 1];
      CollapseOfSpaced(ws[1..], sps[1..]);
    }
  }

  /** One word, one whitespace run and the rest, through collapsing. */
  lemma CollapseStep(w: string, sp: string, rest: string)
    requires |w| > 0 && !IsSpace(w[|w| - 1])
    requires |sp| > 0 && IsSpace(sp[0]) && IsSpace(sp[|sp| - 1])
    requires |rest| > 0 && !IsSpace(rest[0])
    ensures CollapseSpaces(w + sp + rest) == CollapseSpaces(w) + CollapseSpaces(sp) + CollapseSpaces(rest)
  {
    var tail := sp + rest;
    assert CollapseSpaces(tail) == CollapseSpaces(sp) + CollapseSpaces(rest) by {
      CollapseAppend(sp, rest);
    }
    assert CollapseSpaces(w + tail) == CollapseSpaces(w) + CollapseSpaces(tail) by {
      assert tail[0] == sp[0];
      CollapseAppend(w, tail);
    }
    SeqAssoc(w, sp, rest);
    SeqAssoc(CollapseSpaces(w), CollapseSpaces(sp), CollapseSpaces(rest));
  }

  /** Cleaning turns every gap of whitespace and continuations between words into one space. */
  lemma CleanSpaced(ws: seq<string>, gaps: seq<string>)
    requires |ws| == |gaps| + 1
    requires forall k :: 0 <= k < |ws| ==> Word(ws[k])
    requires forall k :: 0 <= k < |gaps| ==> |gaps[k]| > 0 && Gap(gaps[k])
    ensures Clean(Spaced(ws, gaps)) == Join(ws)
  {
    ContinuationsOfSpaced(ws, gaps);
    var sps := Continued(gaps);
    forall k | 0 <= k < |sps|
      ensures |sps[k]| > 0 && forall i :: 0 <= i < |sps[k]| ==> IsSpace(sps[k][i])
    {
      GapContinuations(gaps[k]);
    }
    CollapseOfSpaced(ws, sps);
  }

  // ---------------------------------------------------------------------------
  // Tokens: `cleaned.match(/(?:"[^"]*"|'[^']*'|[^\s"]+)+/g) || []`
  // ---------------------------------------------------------------------------

  /** The first index at or after `from` holding `c`, or -1. */
  function IndexOf(s: string, from: nat, c: char): (k: int)
    requires from <= |s|
    ensures k == -1 <==> forall j :: from <= j < |s| ==> s[j] != c
    ensures k != -1 ==> from <= k < |s| && s[k] == c && forall j :: from <= j < k ==> s[j] != c
    decreases |s| - from
  {
    if from == |s| then -1
    else if s[from] == c then from
    else IndexOf(s, from + 1, c)
  }

  /** The end of the run `[^\s"]+` starting at `p` (`p` itself when empty). */
  function BareEnd(s: string, p: nat): (e: nat)
    requires p <= |s|
    ensures p <= e <= |s|
    ensures forall j :: p <= j < e ==> !IsSpace(s[j]) && s[j] != '"'
    ensures e == |s| || IsSpace(s[e]) || s[e] == '"'
    decreases |s| - p
  {
    if p == |s| || IsSpace(s[p]) || s[p] == '"' then p else BareEnd(s, p + 1)
  }

  /** The end of the one alternative `"[^"]*"`, `'[^']*'` or `[^\s"]+` that
      matches at `p`, tried in that order; `p` when none does. An unmatched
      `"` starts no alternative; an unmatched `'` starts a bare run. */
  function UnitEnd(s: string, p: nat): (e: nat)
    requires p < |s|
    ensures p <= e <= |s|
    ensures e == p <==> IsSpace(s[p]) || (s[p] == '"' && IndexOf(s, p + 1, '"') == -1)
  {
    if s[p] == '"' then
      var k := IndexOf(s, p + 1, '"');
      if k == -1 then p else k + 1
    else if s[p] == '\'' && IndexOf(s, p + 1, '\'') != -1 then
      IndexOf(s, p + 1, '\'') + 1
    else if IsSpace(s[p]) then p
    else BareEnd(s, p)
  }

  /** The end of the match of `(?:...)+` at `p`: alternatives as long as one matches. */
  function TokenEnd(s: string, p: nat): (e: nat)
    requires p <= |s|
    ensures p <= e <= |s|
    ensures p < |s| ==> (e == p <==> UnitEnd(s, p) == p)
    decreases |s| - p
  {
    if p == |s| then p
    else
      var u := UnitEnd(s, p);
      if u == p then p else TokenEnd(s, u)
  }

  /** The `+` repeats: a match stops only at the end of the text or where no
      alternative matches. */
  lemma {:induction false} TokenEndMaximal(s: string, p: nat)
    requires p <= |s|
    ensures TokenEnd(s, p) == |s| || UnitEnd(s, TokenEnd(s, p)) == TokenEnd(s, p)
    decreases |s| - p
  {
    if p < |s| && UnitEnd(s, p) != p {
      TokenEndMaximal(s, UnitEnd(s, p));
    }
  }

  /** The global match from `p` on: where no match starts, the scan moves one character on. */
  function TokensFrom(s: string, p: nat): seq<string>
    requires p <= |s|
    decreases |s| - p
  {
    if p == |s| then []
    else
      var e := TokenEnd(s, p);
      if e == p then TokensFrom(s, p + 1) else [s[p..e]] + TokensFrom(s, e)
  }

  /** Every token is non-empty and starts with a non-space. */
  lemma {:induction false} TokensNonEmpty(s: string, p: nat)
    requires p <= |s|
    ensures forall t :: t in TokensFrom(s, p) ==> |t| > 0 && !IsSpace(t[0])
    decreases |s| - p
  {
    if p < |s| {
      var e := TokenEnd(s, p);
      if e == p {
        TokensNonEmpty(s, p + 1);
      } else {
        TokensNonEmpty(s, e);
        assert s[p..e][0] == s[p];
      }
    }
  }

  /** The global token match of line 5, or the empty list when nothing matches. */
  function Tokenize(s: string): (r: seq<string>)
    ensures forall t :: t in r ==> |t| > 0 && !IsSpace(t[0])
  {
    TokensNonEmpty(s, 0);
    TokensFrom(s, 0)
  }

  /** The argument list of line 5. */
  function Args(curl: string): (r: seq<string>)
    ensures forall t :: t in r ==> |t| > 0 && !IsSpace(t[0])
  {
    Tokenize(Clean(curl))
  }

  /** A word with no whitespace and no `"`, not opening with `'`. */
  predicate Bare(w: string) {
    |w| > 0 && w[0] != '\'' && forall i :: 0 <= i < |w| ==> !IsSpace(w[i]) && w[i] != '"'
  }

  /** A span `q...q` whose inside has no `q` (it may hold spaces and the other quote). */
  predicate QuotedWith(w: string, q: char) {
    |w| >= 2 && w[0] == q && w[|w| - 1] == q && forall i :: 0 < i < |w| - 1 ==> w[i] != q
  }

  /** The pieces of `s` from `a` to exactly `e`: `"…"`, `'…'` and `[^\s"]+`,
      split where `UnitEnd` splits them, with every quote that opens a piece
      closed before `e`. */
  predicate PieceRun(s: string, a: nat, e: nat)
    decreases e - a
  {
    && a < e <= |s|
    && (s[a] == '\'' ==> IndexOf(s, a + 1, '\'') != -1)
    && a < UnitEnd(s, a) <= e
    && (UnitEnd(s, a) < e ==> PieceRun(s, UnitEnd(s, a), e))
  }

  /** A word the pattern reads as one token on its own: a non-empty run of
      pieces. So `-H"a b"` and `'a'"b"` are words, while `a'b c'` (a bare run
      takes the `'`) is not. */
  predicate SimpleArg(w: string) {
    PieceRun(w, 0, |w|)
  }

  /** A bare word is one piece. */
  lemma BareIsSimple(w: string)
    requires Bare(w)
    ensures SimpleArg(w) && UnitEnd(w, 0) == |w|
  {
    assert BareEnd(w, 0) == |w|;
  }

  /** A word wholly in double or in single quotes is one piece. */
  lemma QuotedIsSimple(w: string, q: char)
    requires q == '"' || q == '\''
    requires QuotedWith(w, q)
    ensures SimpleArg(w) && UnitEnd(w, 0) == |w|
  {
    assert IndexOf(w, 1, q) == |w| - 1;
  }

  /** A word that ends a text is a run of pieces of the text. */
  lemma TailRun(s: string, n: nat, w: string)
    requires SimpleArg(w) && n + |w| == |s| && s[n..] == w
    ensures PieceRun(s, n, |s|)
  {
    SuffixPlaced(s, n, w);
    PlacedRun(s, n, w, 0);
  }

  /** A first piece with a run of pieces after it makes a word. */
  lemma SimpleAfterPiece(w: string, u: nat)
    requires 0 < u < |w| && UnitEnd(w, 0) == u && PieceRun(w, u, |w|)
    requires w[0] == '\'' ==> IndexOf(w, 1, '\'') != -1
    ensures SimpleArg(w)
  {
  }

  /** A bare piece followed by a word that opens with `"` is one word: the bare
      run stops at the `"`. */
  lemma BareThenQuoted(a: string, b: string)
    requires Bare(a) && SimpleArg(b) && b[0] == '"'
    ensures SimpleArg(a + b)
  {
    var w := a + b;
    BarePrefix(a, b);
    assert w[|a|..] == b;
    TailRun(w, |a|, b);
    SimpleAfterPiece(w, |a|);
  }

  /** The bare run at the start of `a + b` is `a` when `b` opens with `"`. */
  lemma BarePrefix(a: string, b: string)
    requires Bare(a) && |b| > 0 && b[0] == '"'
    ensures (a + b)[0] == a[0] && UnitEnd(a + b, 0) == |a|
  {
    var w := a + b;
    assert forall j :: 0 <= j < |a| ==> w[j] == a[j];
    assert w[|a|] == b[0];
    assert BareEnd(w, 0) == |a|;
  }

  /** A quoted piece followed by any word is one word. */
  lemma QuotedThen(a: string, q: char, b: string)
    requires q == '"' || q == '\''
    requires QuotedWith(a, q) && SimpleArg(b)
    ensures SimpleArg(a + b)
  {
    var w := a + b;
    QuotedPrefix(a, q, b);
    assert w[|a|..] == b;
    TailRun(w, |a|, b);
    SimpleAfterPiece(w, |a|);
  }

  /** The quoted span at the start of `a + b` is `a`. */
  lemma QuotedPrefix(a: string, q: char, b: string)
    requires q == '"' || q == '\''
    requires QuotedWith(a, q)
    ensures (a + b)[0] == q && IndexOf(a + b, 1, q) == |a| - 1 && UnitEnd(a + b, 0) == |a|
  {
    var w := a + b;
    assert forall j :: 0 <= j < |a| ==> w[j] == a[j];
    assert IndexOf(w, 1, q) == |a| - 1;
  }

  /** The last character of a run of pieces is no whitespace. */
  lemma {:induction false} PiecesEndNonSpace(s: string, a: nat, e: nat)
    requires PieceRun(s, a, e)
    ensures !IsSpace(s[e - 1])
    decreases e - a
  {
    var u := UnitEnd(s, a);
    if u < e {
      PiecesEndNonSpace(s, u, e);
    } else if s[a] == '"' || s[a] == '\'' {
      assert s[u - 1] == s[a];
    }
  }

  /** A word neither starts nor ends with whitespace. */
  lemma SimpleArgEdges(w: string)
    requires SimpleArg(w)
    ensures !IsSpace(w[0]) && !IsSpace(w[|w| - 1])
  {
    PiecesEndNonSpace(w, 0, |w|);
  }

  /** Words separated by single spaces. */
  function Join(ws: seq<string>): string {
    if |ws| == 0 then ""
    else if |ws| == 1 then ws[0]
    else ws[0] + " " + Join(ws[1..])
  }

  /** `w` sits in `s` at `p`, stated character by character. */
  predicate Placed(s: string, p: nat, w: string)
    decreases |w|
  {
    p + |w| <= |s| && (|w| == 0 || (s[p] == w[0] && Placed(s, p + 1, w[1..])))
  }

  lemma {:induction false} SlicePlaced(s: string, p: nat, w: string)
    requires p + |w| <= |s| && s[p..p + |w|] == w
    ensures Placed(s, p, w)
    decreases |w|
  {
    if |w| > 0 {
      assert s[p + 1..p + |w|] == w[1..];
      SlicePlaced(s, p + 1, w[1..]);
    }
  }

  lemma {:induction false} SuffixPlaced(s: string, p: nat, w: string)
    requires p <= |s| && s[p..] == w
    ensures Placed(s, p, w)
    decreases |w|
  {
    if |w| > 0 {
      assert s[p + 1..] == w[1..];
      SuffixPlaced(s, p + 1, w[1..]);
    }
  }

  lemma {:induction false} PlacedSlice(s: string, p: nat, w: string)
    requires Placed(s, p, w)
    ensures p + |w| <= |s| && s[p..p + |w|] == w
    decreases |w|
  {
    if |w| > 0 {
      PlacedSlice(s, p + 1, w[1..]);
      assert s[p..p + |w|] == [s[p]] + s[p + 1..p + |w|];
      assert w == [w[0]] + w[1..];
    }
  }

  /** A quote closed inside a word placed at `p` closes at the same place in the text. */
  lemma IndexOfWithin(s: string, p: nat, w: string, from: nat, c: char)
    requires p + |w| <= |s| && s[p..p + |w|] == w && from <= |w|
    requires IndexOf(w, from, c) != -1
    ensures IndexOf(s, p + from, c) == p + IndexOf(w, from, c)
  {
    var k := IndexOf(w, from, c);
    assert s[p + k] == w[k];
    assert forall j :: p + from <= j < p + k ==> s[j] == w[j - p];
  }

  /** A bare run inside a word placed at `p` and followed by whitespace or the
      end ends at the same place in the text. */
  lemma BareEndWithin(s: string, p: nat, w: string, i: nat)
    requires p + |w| <= |s| && s[p..p + |w|] == w && i <= |w|
    requires p + |w| == |s| || IsSpace(s[p + |w|])
    ensures BareEnd(s, p + i) == p + BareEnd(w, i)
  {
    assert forall j :: p <= j < p + |w| ==> s[j] == w[j - p];
  }

  /** A piece of a word placed at `p` and followed by whitespace or the end is
      the same piece of the match there. */
  lemma PieceWithin(s: string, p: nat, w: string, i: nat)
    requires PieceRun(w, i, |w|) && p + |w| <= |s| && s[p..p + |w|] == w
    requires p + |w| == |s| || IsSpace(s[p + |w|])
    ensures UnitEnd(s, p + i) == p + UnitEnd(w, i)
    ensures s[p + i] == '\'' ==> IndexOf(s, p + i + 1, '\'') != -1
  {
    assert s[p + i] == w[i];
    if w[i] == '"' {
      IndexOfWithin(s, p, w, i + 1, '"');
    } else if w[i] == '\'' {
      IndexOfWithin(s, p, w, i + 1, '\'');
    } else {
      BareEndWithin(s, p, w, i);
    }
  }

  /** One piece of a word placed at `p` and followed by whitespace or the end:
      the same piece of the text, and the pieces after it. */
  lemma PieceStep(s: string, p: nat, w: string, i: nat)
    requires PieceRun(w, i, |w|) && Placed(s, p, w)
    requires p + |w| == |s| || IsSpace(s[p + |w|])
    ensures p + |w| <= |s|
    ensures var u := UnitEnd(w, i);
      && i < u <= |w|
      && UnitEnd(s, p + i) == p + u
      && (s[p + i] == '\'' ==> IndexOf(s, p + i + 1, '\'') != -1)
      && (u < |w| ==> PieceRun(w, u, |w|))
  {
    PlacedSlice(s, p, w);
    PieceWithin(s, p, w, i);
  }

  /** The pieces of a word placed at `p` and followed by whitespace or the end
      are pieces of the text. */
  lemma {:induction false} PlacedRun(s: string, p: nat, w: string, i: nat)
    requires PieceRun(w, i, |w|) && Placed(s, p, w)
    requires p + |w| == |s| || IsSpace(s[p + |w|])
    ensures PieceRun(s, p + i, p + |w|)
    decreases |w| - i
  {
    var u := UnitEnd(w, i);
    PieceStep(s, p, w, i);
    if u < |w| {
      PlacedRun(s, p, w, u);
    }
  }

  /** A match over a run of pieces followed by whitespace or the end ends
      with the run. */
  lemma {:induction false} RunTokenEnd(s: string, a: nat, e: nat)
    requires PieceRun(s, a, e) && (e == |s| || IsSpace(s[e]))
    ensures TokenEnd(s, a) == e
    decreases e - a
  {
    var u := UnitEnd(s, a);
    TokenEndStep(s, a, u);
    if u == e {
      TokenEndStops(s, e);
    } else {
      RunTokenEnd(s, u, e);
    }
  }

  /** A match that goes on past a piece goes on from where the piece ends. */
  lemma TokenEndStep(s: string, a: nat, b: nat)
    requires a < b <= |s| && UnitEnd(s, a) == b
    ensures TokenEnd(s, a) == TokenEnd(s, b)
  {
  }

  /** No match goes on past whitespace or the end. */
  lemma TokenEndStops(s: string, e: nat)
    requires e <= |s| && (e == |s| || IsSpace(s[e]))
    ensures TokenEnd(s, e) == e
  {
  }

  /** A word followed by whitespace or by the end is exactly one match. */
  lemma SimpleTokenEnd(s: string, p: nat, w: string)
    requires SimpleArg(w) && p + |w| <= |s| && s[p..p + |w|] == w
    requires p + |w| == |s| || IsSpace(s[p + |w|])
    ensures TokenEnd(s, p) == p + |w|
  {
    SlicePlaced(s, p, w);
    PlacedTokenEnd(s, p, w);
  }

  /** `SimpleTokenEnd` with the word placed character by character. */
  lemma PlacedTokenEnd(s: string, p: nat, w: string)
    requires SimpleArg(w) && Placed(s, p, w)
    requires p + |w| == |s| || IsSpace(s[p + |w|])
    ensures TokenEnd(s, p) == p + |w|
  {
    PlacedRun(s, p, w, 0);
    RunTokenEnd(s, p, p + |w|);
  }

  /** Where the first word of a join ends, and what follows it. */
  lemma JoinSplit(s: string, p: nat, ws: seq<string>)
    requires p <= |s| && s[p..] == Join(ws) && |ws| > 0
    ensures p + |ws[0]| <= |s| && s[p..p + |ws[0]|] == ws[0]
    ensures |ws| == 1 ==> p + |ws[0]| == |s|
    ensures |ws| > 1 ==> p + |ws[0]| < |s| && s[p + |ws[0]|] == ' ' && s[p + |ws[0]| + 1..] == Join(ws[1..])
  {
    var n := p + |ws[0]|;
    if |ws| > 1 {
      var t := ws[0] + " " + Join(ws[1..]);
      assert s[p..] == t;
      assert s[p..n] == t[..|ws[0]|];
      assert s[n] == t[|ws[0]|];
      assert s[n + 1..] == t[|ws[0]| + 1..];
    }
  }

  /** A match at `p` is the next token. */
  lemma TokensFromMatch(s: string, p: nat, e: nat)
    requires p < |s| && p < e && TokenEnd(s, p) == e
    ensures TokensFrom(s, p) == [s[p..e]] + TokensFrom(s, e)
  {
  }

  /** A space starts no token. */
  lemma TokensFromSpace(s: string, p: nat)
    requires p < |s| && s[p] == ' '
    ensures TokensFrom(s, p) == TokensFrom(s, p + 1)
  {
    assert UnitEnd(s, p) == p;
  }

  /** A `"` with no closing quote after it starts no match: the global scan
      moves one character on and carries on matching after it. */
  lemma TokensFromUnmatchedQuote(s: string, p: nat)
    requires p < |s| && s[p] == '"' && IndexOf(s, p + 1, '"') == -1
    ensures TokensFrom(s, p) == TokensFrom(s, p + 1)
  {
    assert UnitEnd(s, p) == p;
  }

  /** A word that ends the text is its only token. */
  lemma OnlyWord(s: string, p: nat, w: string)
    requires SimpleArg(w) && Placed(s, p, w) && p + |w| == |s|
    ensures TokensFrom(s, p) == [w]
  {
    PlacedTokenEnd(s, p, w);
    PlacedSlice(s, p, w);
    TokensFromMatch(s, p, |s|);
  }

  /** A word followed by a space is the next token; the scan goes on after the space. */
  lemma FirstWord(s: string, p: nat, w: string)
    requires SimpleArg(w) && Placed(s, p, w) && p + |w| < |s| && s[p + |w|] == ' '
    ensures TokensFrom(s, p) == [w] + TokensFrom(s, p + |w| + 1)
  {
    PlacedTokenEnd(s, p, w);
    PlacedSlice(s, p, w);
    TokenThenSpace(s, p, p + |w|);
  }

  /** A match at `p` ending at a space: the token, then the scan after the space. */
  lemma TokenThenSpace(s: string, p: nat, n: nat)
    requires p < n < |s| && TokenEnd(s, p) == n && s[n] == ' '
    ensures TokensFrom(s, p) == [s[p..n]] + TokensFrom(s, n + 1)
  {
    TokensFromMatch(s, p, n);
    TokensFromSpace(s, n);
  }

  /** The words `ws` lie in `s` from `p` on, each after the single space
      that ends the one before, the last one ending the text. */
  predicate WordsAt(s: string, p: nat, ws: seq<string>)
    decreases |ws|
  {
    && p <= |s|
    && (|ws| == 0 ==> p == |s|)
    && (|ws| > 0 ==> SimpleArg(ws[0]) && Placed(s, p, ws[0]))
    && (|ws| == 1 ==> p + |ws[0]| == |s|)
    && (|ws| > 1 ==>
          p + |ws[0]| < |s| && s[p + |ws[0]|] == ' ' && WordsAt(s, p + |ws[0]| + 1, ws[1..]))
  }

  /** A join of simple words lays them out as `WordsAt` describes. */
  lemma {:induction false} JoinWordsAt(s: string, p: nat, ws: seq<string>)
    requires p <= |s| && s[p..] == Join(ws)
    requires forall i :: 0 <= i < |ws| ==> SimpleArg(ws[i])
    ensures WordsAt(s, p, ws)
    decreases |ws|
  {
    if |ws| == 0 {
      assert |s[p..]| == 0;
    } else {
      JoinSplit(s, p, ws);
      SlicePlaced(s, p, ws[0]);
      if |ws| > 1 {
        var tail := ws[1..];
        assert forall i :: 0 <= i < |tail| ==> tail[i] == ws[i + 1];
        JoinWordsAt(s, p + |ws[0]| + 1, tail);
      }
    }
  }

  /** Words laid out as `WordsAt` describes are exactly the tokens. */
  lemma {:induction false} TokensOfWords(s: string, p: nat, ws: seq<string>)
    requires WordsAt(s, p, ws)
    ensures TokensFrom(s, p) == ws
    decreases |ws|
  {
    if |ws| == 1 {
      OnlyWord(s, p, ws[0]);
    } else if |ws| > 1 {
      FirstWord(s, p, ws[0]);
      TokensOfWords(s, p + |ws[0]| + 1, ws[1..]);
      assert ws == [ws[0]] + ws[1..];
    }
  }

  /** Simple words joined by single spaces tokenize back into those words:
      a quoted span holding spaces stays one token. */
  lemma TokensOfJoin(s: string, p: nat, ws: seq<string>)
    requires p <= |s| && s[p..] == Join(ws)
    requires forall i :: 0 <= i < |ws| ==> SimpleArg(ws[i])
    ensures TokensFrom(s, p) == ws
  {
    JoinWordsAt(s, p, ws);
    TokensOfWords(s, p, ws);
  }

  // ---------------------------------------------------------------------------
  // Values: `.replace(/^['"]|['"]$/g, '')`, `split(':')`, `trim()`
  // ---------------------------------------------------------------------------

  /** Removes at most one leading and at most one trailing quote character,
      independently; a lone quote character becomes empty. */
  function Strip(v: string): (r: string)
    ensures |v| - 2 <= |r| <= |v|
  {
    var a := if |v| > 0 && IsQuote(v[0]) then 1 else 0;
    var b := if |v| > a && IsQuote(v[|v| - 1]) then |v| - 1 else |v|;
    v[a..b]
  }

  lemma StripQuoted(q: char, x: string, q': char)
    requires IsQuote(q) && IsQuote(q')
    ensures Strip([q] + x + [q']) == x
  {
    var v := [q] + x + [q'];
    assert v[1..|v| - 1] == x;
  }

  lemma StripUnquoted(v: string)
    requires |v| > 0 ==> !IsQuote(v[0]) && !IsQuote(v[|v| - 1])
    ensures Strip(v) == v
  {
  }

  /** One quote character at one end only goes, at either end; quotes further in stay. */
  lemma StripOneSide(q: char, x: string)
    requires IsQuote(q)
    ensures (|x| > 0 ==> !IsQuote(x[|x| - 1])) ==> Strip([q] + x) == x
    ensures (|x| > 0 ==> !IsQuote(x[0])) ==> Strip(x + [q]) == x
  {
    assert ([q] + x)[1..] == x;
    assert (x + [q])[..|x|] == x;
  }

  /** `split(':')` then `[key, ...val]` and `val.join(':')`: the text before the
      first colon, and everything after it (later colons kept). */
  function SplitAtColon(h: string): (kv: (string, string))
    ensures ':' !in kv.0
    ensures ':' in h ==> kv.0 + ":" + kv.1 == h
    ensures ':' !in h ==> kv.0 == h && kv.1 == ""
  {
    var k := IndexOf(h, 0, ':');
    if k == -1 then (h, "")
    else
      assert h[..k] + ":" + h[k + 1..] == h by {
        assert h == h[..k] + [h[k]] + h[k + 1..];
      }
      (h[..k], h[k + 1..])
  }

  function TrimStart(s: string): (r: string)
    ensures |r| <= |s| && r == s[|s| - |r|..]
    ensures forall i :: 0 <= i < |s| - |r| ==> IsSpace(s[i])
    ensures r == "" || !IsSpace(r[0])
  {
    DropSpaces(s)
  }

  function TrimEnd(s: string): (r: string)
    ensures |r| <= |s| && r == s[..|r|]
    ensures forall i :: |r| <= i < |s| ==> IsSpace(s[i])
    ensures r == "" || !IsSpace(r[|r| - 1])
  {
    if |s| > 0 && IsSpace(s[|s| - 1]) then TrimEnd(s[..|s| - 1]) else s
  }

  /** `trim()`: the infix between the leading and the trailing whitespace. */
  function Trim(s: string): (r: string)
    ensures |r| <= |s|
    ensures r == "" || (!IsSpace(r[0]) && !IsSpace(r[|r| - 1]))
    ensures (|s| > 0 ==> !IsSpace(s[0]) && !IsSpace(s[|s| - 1])) ==> r == s
  {
    TrimEnd(TrimStart(s))
  }

  /** `trim()` keeps the infix after `Lead(s)` leading whitespace characters and before a
      whitespace suffix, and gives the empty string exactly for all-whitespace text. */
  lemma TrimInfix(s: string)
    ensures Lead(s) + |Trim(s)| <= |s| && Trim(s) == s[Lead(s)..Lead(s) + |Trim(s)|]
    ensures forall i :: 0 <= i < Lead(s) ==> IsSpace(s[i])
    ensures forall i :: Lead(s) + |Trim(s)| <= i < |s| ==> IsSpace(s[i])
    ensures Trim(s) == "" <==> forall i :: 0 <= i < |s| ==> IsSpace(s[i])
  {
    TrimBounds(s, TrimStart(s), Trim(s), Lead(s));
  }

  /** How many whitespace characters `s` opens with. */
  function Lead(s: string): nat {
    |s| - |TrimStart(s)|
  }

  lemma TrimBounds(s: string, t: string, r: string, d: int)
    requires t == TrimStart(s) && r == TrimEnd(t) && d == |s| - |t|
    ensures d + |r| <= |s| && r == s[d..d + |r|]
    ensures forall i :: 0 <= i < d ==> IsSpace(s[i])
    ensures forall i :: d + |r| <= i < |s| ==> IsSpace(s[i])
    ensures r == "" <==> forall i :: 0 <= i < |s| ==> IsSpace(s[i])
    ensures r == "" || (!IsSpace(r[0]) && !IsSpace(r[|r| - 1]))
    ensures (|s| > 0 ==> !IsSpace(s[0]) && !IsSpace(s[|s| - 1])) ==> r == s
  {
    assert t == s[d..];
    assert r == t[..|r|];
    forall i | d + |r| <= i < |s|
      ensures IsSpace(s[i])
    {
      assert s[i] == t[i - d];
    }
    if r == "" {
      assert |t| == 0;
    } else {
      assert r[0] == s[d];
    }
  }

  datatype Header = Header(key: string, value: string)

  /** Lines 20-21 of the source on the stripped header text. */
  function ParseHeader(h: string): (r: Header)
    ensures ':' !in h ==> r.value == ""
  {
    var kv := SplitAtColon(h);
    Header(Trim(kv.0), Trim(kv.1))
  }

  /** A parsed header key never holds a colon: it is cut at the first one. */
  lemma HeaderKeyHasNoColon(h: string)
    ensures ':' !in ParseHeader(h).key
  {
    var k := SplitAtColon(h).0;
    var key := Trim(k);
    TrimInfix(k);
    assert forall j :: 0 <= j < |key| ==> key[j] == k[Lead(k) + j];
  }

  /** Header text with a colon splits at the first one; the key has no colon and the value keeps the later ones. */
  lemma HeaderSplit(k: string, v: string)
    requires ':' !in k
    ensures ParseHeader(k + ":" + v) == Header(Trim(k), Trim(v))
  {
    var h := k + ":" + v;
    assert h[|k|] == ':';
    assert forall j :: 0 <= j < |k| ==> h[j] == k[j];
    assert IndexOf(h, 0, ':') == |k|;
    assert h[..|k|] == k;
    assert h[|k| + 1..] == v;
  }

  /** Header text with no colon is all key, with the empty value. */
  lemma HeaderWithoutColon(h: string)
    requires ':' !in h
    ensures ParseHeader(h) == Header(Trim(h), "")
  {
  }

  // ---------------------------------------------------------------------------
  // The option loop, lines 8-36
  // ---------------------------------------------------------------------------

  /** What the function returns: `{method, url, headers, data}`. */
  datatype CurlRequest = CurlRequest(httpMethod: string, url: string, headers: seq<Header>, data: string)

  /** The values of the locals before the loop (lines 8-11). */
  const Initial := CurlRequest("GET", "", [], "")

  predicate IsMethodFlag(a: string) { a == "-X" || a == "--request" }
  predicate IsHeaderFlag(a: string) { a == "-H" || a == "--header" }
  predicate IsDataFlag(a: string) { a == "-d" || a == "--data" || a == "--data-raw" || a == "--data-binary" }
  predicate TakesValue(a: string) { IsMethodFlag(a) || IsHeaderFlag(a) || IsDataFlag(a) }
  /** `arg.startsWith('-')` */
  predicate IsDash(a: string) { |a| > 0 && a[0] == '-' }

  /** One pass of the loop body at index `i < |args|`: the index the next pass
      starts at and the new locals. An option that takes a value as the last
      token reads `args[++i]`, which is `undefined`, and calling `.replace` on
      it throws a TypeError. */
  function Step(args: seq<string>, i: nat, st: CurlRequest): (r: Outcome<(nat, CurlRequest)>)
    requires i < |args|
    ensures r.Threw? <==> TakesValue(args[i]) && i + 1 == |args|
    ensures r.Threw? ==> r.error == TypeError
    ensures r.Returned? ==> i < r.value.0 <= |args|
  {
    var arg := args[i];
    if TakesValue(arg) && i + 1 >= |args| then Threw(TypeError)
    else if IsMethodFlag(arg) then
      Returned((i + 2, st.(httpMethod := Strip(args[i + 1]))))
    else if IsHeaderFlag(arg) then
      Returned((i + 2, st.(headers := st.headers + [ParseHeader(Strip(args[i + 1]))])))
    else if IsDataFlag(arg) then
      Returned((i + 2, st.(data := Strip(args[i + 1]), httpMethod := if st.httpMethod == "GET" then "POST" else st.httpMethod)))
    else if !IsDash(arg) then
      Returned((i + 1, if st.url == "" then st.(url := Strip(arg)) else st))
    else
      Returned((i + 1, st))
  }

  /** The loop from index `i` on, with the locals in `st`. */
  function Scan(args: seq<string>, i: nat, st: CurlRequest): (r: Outcome<CurlRequest>)
    ensures r.Threw? ==> r.error == TypeError
    decreases |args| - i
  {
    if i >= |args| then Returned(st)
    else
      match Step(args, i, st)
      case Threw(e) => Threw(e)
      case Returned((j, st')) => Scan(args, j, st')
  }

  /** `parseCurlCommand` as a function of its input: `Not a curl command` exactly when the
      first token is not `curl`; otherwise only a dangling option can make it throw. */
  function Parse(curl: string): (r: Outcome<CurlRequest>)
    ensures r == Threw(NotACurlCommand) <==> |Args(curl)| == 0 || Args(curl)[0] != "curl"
    ensures r.Threw? ==> r.error == NotACurlCommand || r.error == TypeError
  {
    var args := Args(curl);
    if |args| == 0 || args[0] != "curl" then Threw(NotACurlCommand)
    else Scan(args, 1, Initial)
  }

  /** An option that takes a value, appended after a command that parsed, makes it throw. */
  lemma {:induction false} DanglingValueFlag(args: seq<string>, i: nat, st: CurlRequest, f: string)
    requires i <= |args| && TakesValue(f) && Scan(args, i, st).Returned?
    ensures Scan(args + [f], i, st) == Threw(TypeError)
    decreases |args| - i
  {
    var longer := args + [f];
    assert longer[i] == if i == |args| then f else args[i];
    if i < |args| {
      match Step(args, i, st)
      case Returned((j, st')) =>
        if TakesValue(args[i]) {
          assert longer[i + 1] == args[i + 1];
        }
        assert Step(longer, i, st) == Step(args, i, st);
        DanglingValueFlag(args, j, st', f);
    }
  }

  /** One pass at the start of `rest` reads nothing before it. */
  lemma StepShift(before: seq<string>, rest: seq<string>, st: CurlRequest)
    requires |rest| > 0
    ensures Step(before + rest, |before|, st) == match Step(rest, 0, st)
      case Threw(e) => Threw(e)
      case Returned((d, st')) => Returned((|before| + d, st'))
  {
    var all := before + rest;
    assert all[|before|] == rest[0];
    if |rest| > 1 {
      assert all[|before| + 1] == rest[1];
    }
  }

  /** The loop from the start of `rest` does not depend on the tokens before it. */
  lemma {:induction false} ScanDropPrefix(before: seq<string>, rest: seq<string>, st: CurlRequest)
    ensures Scan(before + rest, |before|, st) == Scan(rest, 0, st)
    decreases |rest|
  {
    var all := before + rest;
    if |rest| > 0 {
      StepShift(before, rest, st);
      var r := Step(rest, 0, st);
      if r.Returned? {
        var d, st' := r.value.0, r.value.1;
        var post := rest[d..];
        var pre, front := before + rest[..d], rest[..d];
        assert Scan(all, |before|, st) == Scan(post, 0, st') by {
          ScanNext(all, |before|, st, |before| + d, st');
          SplitAt(before, rest, d);
          ScanDropPrefix(pre, post, st');
        }
        assert Scan(rest, 0, st) == Scan(post, 0, st') by {
          ScanNext(rest, 0, st, d, st');
          SplitAt([], rest, d);
          assert [] + rest == rest && [] + front == front;
          ScanDropPrefix(front, post, st');
        }
      } else {
        assert Scan(all, |before|, st) == Threw(r.error);
        assert Scan(rest, 0, st) == Threw(r.error);
      }
    } else {
      assert all == before;
    }
  }

  /** One pass of the loop that returns hands over to the loop from the next index. */
  lemma ScanNext(args: seq<string>, i: nat, st: CurlRequest, j: nat, st': CurlRequest)
    requires i < |args| && Step(args, i, st) == Returned((j, st'))
    ensures Scan(args, i, st) == Scan(args, j, st')
  {
  }

  lemma SplitAt(before: seq<string>, rest: seq<string>, d: nat)
    requires d <= |rest|
    ensures before + rest == (before + rest[..d]) + rest[d..]
    ensures |before + rest[..d]| == |before| + d
  {
    assert rest == rest[..d] + rest[d..];
  }

  /** An option starting with `-` that the loop does not know is skipped on its own: the result is as if it were absent. */
  lemma UnknownOptionIgnored(before: seq<string>, u: string, rest: seq<string>, st: CurlRequest)
    requires IsDash(u) && !TakesValue(u)
    ensures Scan(before + [u] + rest, |before|, st) == Scan(before + rest, |before|, st)
  {
    var all := before + [u] + rest;
    assert all[|before|] == u;
    assert Step(all, |before|, st) == Returned((|before| + 1, st));
    assert all == (before + [u]) + rest;
    ScanDropPrefix(before + [u], rest, st);
    ScanDropPrefix(before, rest, st);
  }

  // ---------------------------------------------------------------------------
  // Reference definition: the options a token list stands for, applied in order
  // ---------------------------------------------------------------------------

  /** What one recognised token (with its value) asks for. Dash tokens the loop does not know stand for nothing. */
  datatype Opt = SetMethod(m: string) | AddHeader(h: Header) | SetData(d: string) | Positional(u: string)

  /** The options of `args[i..]`, or the error a dangling value option raises. */
  function Options(args: seq<string>, i: nat): (r: Outcome<seq<Opt>>)
    ensures r.Threw? ==> r.error == TypeError
    decreases |args| - i
  {
    if i >= |args| then Returned([])
    else
      var arg := args[i];
      if TakesValue(arg) then
        if i + 1 >= |args| then Threw(TypeError)
        else
          var v := Strip(args[i + 1]);
          var o := if IsMethodFlag(arg) then SetMethod(v) else if IsHeaderFlag(arg) then AddHeader(ParseHeader(v)) else SetData(v);
          match Options(args, i + 2)
          case Threw(e) => Threw(e)
          case Returned(os) => Returned([o] + os)
      else if !IsDash(arg) then
        match Options(args, i + 1)
        case Threw(e) => Threw(e)
        case Returned(os) => Returned([Positional(Strip(arg))] + os)
      else Options(args, i + 1)
  }

  /** The effect of one option on the locals. */
  function Apply(st: CurlRequest, o: Opt): CurlRequest {
    match o
    case SetMethod(m) => st.(httpMethod := m)
    case AddHeader(h) => st.(headers := st.headers + [h])
    case SetData(d) => st.(data := d, httpMethod := if st.httpMethod == "GET" then "POST" else st.httpMethod)
    case Positional(u) => if st.url == "" then st.(url := u) else st
  }

  function ApplyAll(st: CurlRequest, os: seq<Opt>): CurlRequest
    decreases |os|
  {
    if |os| == 0 then st else ApplyAll(Apply(st, os[0]), os[1..])
  }

  /** The loop computes the options of its tokens, applied in order. */
  lemma {:induction false} ScanIsApplyAll(args: seq<string>, i: nat, st: CurlRequest)
    ensures Scan(args, i, st).Threw? <==> Options(args, i).Threw?
    ensures Options(args, i).Returned? ==> Scan(args, i, st) == Returned(ApplyAll(st, Options(args, i).value))
    decreases |args| - i
  {
    if i < |args| {
      var arg := args[i];
      if TakesValue(arg) && i + 1 < |args| {
        ScanIsApplyAll(args, i + 2, Step(args, i, st).value.1);
        if Options(args, i + 2).Returned? {
          var os := Options(args, i).value;
          assert os[1..] == Options(args, i + 2).value;
        }
      } else if !TakesValue(arg) {
        ScanIsApplyAll(args, i + 1, Step(args, i, st).value.1);
        if !IsDash(arg) && Options(args, i + 1).Returned? {
          var os := Options(args, i).value;
          assert os[1..] == Options(args, i + 1).value;
        }
      }
    }
  }

  lemma {:induction false} ApplyAllAppend(st: CurlRequest, a: seq<Opt>, b: seq<Opt>)
    ensures ApplyAll(st, a + b) == ApplyAll(ApplyAll(st, a), b)
    decreases |a|
  {
    if |a| > 0 {
      assert (a + b)[0] == a[0];
      assert (a + b)[1..] == a[1..] + b;
      ApplyAllAppend(Apply(st, a[0]), a[1..], b);
    } else {
      assert a + b == b;
    }
  }

  /** Every `-H` value, parsed, in command-line order. */
  function HeadersOf(os: seq<Opt>): (hs: seq<Header>)
    ensures |hs| <= |os|
    ensures forall h :: h in hs <==> AddHeader(h) in os
  {
    if |os| == 0 then []
    else
      assert os == [os[0]] + os[1..];
      (if os[0].AddHeader? then [os[0].h] else []) + HeadersOf(os[1..])
  }

  /** The position of the last data option, or -1. */
  function LastDataIndex(os: seq<Opt>): (k: int)
    ensures -1 <= k < |os|
    ensures k >= 0 ==> os[k].SetData? && forall j :: k < j < |os| ==> !os[j].SetData?
    ensures k == -1 ==> forall j :: 0 <= j < |os| ==> !os[j].SetData?
  {
    if |os| == 0 then -1
    else if os[|os| - 1].SetData? then |os| - 1
    else LastDataIndex(os[..|os| - 1])
  }

  /** The position of the first positional token whose stripped text is not empty, or -1. */
  function FirstUrlIndex(os: seq<Opt>): (k: int)
    ensures -1 <= k < |os|
    ensures k >= 0 ==> os[k].Positional? && os[k].u != "" && forall j :: 0 <= j < k ==> !(os[j].Positional? && os[j].u != "")
    ensures k == -1 ==> forall j :: 0 <= j < |os| ==> !(os[j].Positional? && os[j].u != "")
  {
    if |os| == 0 then -1
    else if os[0].Positional? && os[0].u != "" then 0
    else
      var k := FirstUrlIndex(os[1..]);
      if k == -1 then -1 else k + 1
  }

  predicate HasData(os: seq<Opt>) {
    exists j :: 0 <= j < |os| && os[j].SetData?
  }

  predicate NoSetMethod(os: seq<Opt>) {
    forall j :: 0 <= j < |os| ==> !os[j].SetMethod?
  }

  /** Headers accumulate: every `-H`, in order, after the ones already there. */
  lemma {:induction false} ApplyAllHeaders(st: CurlRequest, os: seq<Opt>)
    ensures ApplyAll(st, os).headers == st.headers + HeadersOf(os)
    decreases |os|
  {
    if |os| > 0 {
      ApplyAllHeaders(Apply(st, os[0]), os[1..]);
    }
  }

  /** The last data option wins. */
  lemma {:induction false} ApplyAllData(st: CurlRequest, os: seq<Opt>)
    ensures ApplyAll(st, os).data == if LastDataIndex(os) == -1 then st.data else os[LastDataIndex(os)].d
    decreases |os|
  {
    if |os| > 0 {
      var init := os[..|os| - 1];
      assert os == init + [os[|os| - 1]];
      ApplyAllAppend(st, init, [os[|os| - 1]]);
      ApplyAllData(st, init);
    }
  }

  /** A URL once set stays. */
  lemma {:induction false} UrlSticks(st: CurlRequest, os: seq<Opt>)
    requires st.url != ""
    ensures ApplyAll(st, os).url == st.url
    decreases |os|
  {
    if |os| > 0 {
      UrlSticks(Apply(st, os[0]), os[1..]);
    }
  }

  /** The first positional token with non-empty text is the URL. */
  lemma {:induction false} ApplyAllUrl(st: CurlRequest, os: seq<Opt>)
    requires st.url == ""
    ensures ApplyAll(st, os).url == if FirstUrlIndex(os) == -1 then "" else os[FirstUrlIndex(os)].u
    decreases |os|
  {
    if |os| > 0 {
      var st' := Apply(st, os[0]);
      if st'.url != "" {
        UrlSticks(st', os[1..]);
      } else {
        ApplyAllUrl(st', os[1..]);
      }
    }
  }

  /** Without `-X`, the method is the starting one, except that a data option turns `GET` into `POST`. */
  lemma {:induction false} MethodWithoutExplicit(st: CurlRequest, os: seq<Opt>)
    requires NoSetMethod(os)
    ensures ApplyAll(st, os).httpMethod == if st.httpMethod == "GET" && HasData(os) then "POST" else st.httpMethod
    decreases |os|
  {
    if |os| > 0 {
      var st' := Apply(st, os[0]);
      MethodWithoutExplicit(st', os[1..]);
      assert HasData(os) <==> os[0].SetData? || HasData(os[1..]) by {
        if HasData(os[1..]) {
          var j :| 0 <= j < |os[1..]| && os[1..][j].SetData?;
          assert os[j + 1].SetData?;
        }
        if HasData(os) && !os[0].SetData? {
          var j :| 0 <= j < |os| && os[j].SetData?;
          assert os[1..][j - 1].SetData?;
        }
      }
    }
  }

  /** After the last `-X m`, the method is `m`, except that `GET` becomes `POST` when a data option follows. */
  lemma MethodAfterExplicit(st: CurlRequest, a: seq<Opt>, m: string, b: seq<Opt>)
    requires NoSetMethod(b)
    ensures ApplyAll(st, a + [SetMethod(m)] + b).httpMethod == if m == "GET" && HasData(b) then "POST" else m
  {
    ApplyAllAppend(st, a + [SetMethod(m)], b);
    ApplyAllAppend(st, a, [SetMethod(m)]);
    MethodWithoutExplicit(ApplyAll(st, a + [SetMethod(m)]), b);
  }

  /** What a parsed command holds, in terms of its options: every header in
      order, the last data value, the first non-empty positional token as URL. */
  lemma ParseResult(curl: string)
    ensures Parse(curl).Returned? <==> |Args(curl)| > 0 && Args(curl)[0] == "curl" && Options(Args(curl), 1).Returned?
    ensures Parse(curl).Returned? ==>
      var os := Options(Args(curl), 1).value;
      var req := Parse(curl).value;
      && req.headers == HeadersOf(os)
      && req.data == (if LastDataIndex(os) == -1 then "" else os[LastDataIndex(os)].d)
      && req.url == (if FirstUrlIndex(os) == -1 then "" else os[FirstUrlIndex(os)].u)
      && req.httpMethod == ApplyAll(Initial, os).httpMethod
  {
    var args := Args(curl);
    ScanIsApplyAll(args, 1, Initial);
    if |args| > 0 && args[0] == "curl" && Options(args, 1).Returned? {
      var os := Options(args, 1).value;
      ApplyAllHeaders(Initial, os);
      ApplyAllData(Initial, os);
      ApplyAllUrl(Initial, os);
    }
  }

  // ---------------------------------------------------------------------------
  // Commands typed as plain words
  // ---------------------------------------------------------------------------

  /** Simple, single-spaced words joined by single spaces are single-spaced. */
  lemma {:induction false} JoinSingleSpaced(ws: seq<string>)
    requires forall i :: 0 <= i < |ws| ==> SimpleArg(ws[i]) && SingleSpaced(ws[i])
    ensures SingleSpaced(Join(ws))
    ensures |ws| > 0 ==> |Join(ws)| > 0 && Join(ws)[0] != ' '
  {
    if |ws| > 1 {
      JoinSingleSpaced(ws[1..]);
      var w := ws[0];
      var t := Join(ws[1..]);
      var s := w + " " + t;
      assert Join(ws) == s;
      SimpleArgEdges(w);
      forall i | 0 <= i < |s| && IsSpace(s[i]) ensures s[i] == ' ' {
        if i < |w| { assert s[i] == w[i]; } else if i > |w| { assert s[i] == t[i - |w| - 1]; }
      }
      forall i | 0 <= i < |s| - 1 ensures !(s[i] == ' ' && s[i + 1] == ' ') {
        if i + 1 < |w| { assert s[i] == w[i] && s[i + 1] == w[i + 1]; }
        else if i + 1 == |w| { assert s[i] == w[|w| - 1]; }
        else if i == |w| { assert s[i + 1] == t[0]; }
        else { assert s[i] == t[i - |w| - 1] && s[i + 1] == t[i - |w|]; }
      }
    }
  }

  /** A command typed as simple words separated by single spaces has exactly those words as its tokens. */
  lemma ArgsOfJoin(ws: seq<string>)
    requires forall i :: 0 <= i < |ws| ==> SimpleArg(ws[i]) && SingleSpaced(ws[i])
    ensures Args(Join(ws)) == ws
  {
    JoinSingleSpaced(ws);
    CleanFixpoint(Join(ws));
    TokensOfJoin(Join(ws), 0, ws);
  }

  /** Words separated by any mix of whitespace and backslash-newline continuations,
      as a command is typed over several lines, have exactly those words as arguments. */
  lemma ArgsOfSpaced(ws: seq<string>, gaps: seq<string>)
    requires |ws| == |gaps| + 1
    requires forall k :: 0 <= k < |ws| ==> Word(ws[k])
    requires forall k :: 0 <= k < |gaps| ==> |gaps[k]| > 0 && Gap(gaps[k])
    ensures Args(Spaced(ws, gaps)) == ws
  {
    CleanSpaced(ws, gaps);
    TokensOfJoin(Join(ws), 0, ws);
  }

  /** `curl -X GET` has three tokens. */
  lemma MethodOnlyArgs()
    ensures Args("curl -X GET") == ["curl", "-X", "GET"]
  {
    var ws := ["curl", "-X", "GET"];
    assert Join(ws) == "curl -X GET";
    BareIsSimple("curl");
    BareIsSimple("-X");
    BareIsSimple("GET");
    ArgsOfJoin(ws);
  }

  lemma ParseOfArgs(curl: string, ws: seq<string>)
    requires Args(curl) == ws && |ws| > 0 && ws[0] == "curl"
    ensures Parse(curl) == Scan(ws, 1, Initial)
  {
  }

  /** A command whose tokens are `curl -X GET` returns, with the empty URL: nothing in the loop requires a URL. */
  lemma MethodOnlyHasNoUrl(curl: string)
    requires Args(curl) == ["curl", "-X", "GET"]
    ensures Parse(curl) == Returned(CurlRequest("GET", "", [], ""))
  {
    var ws := ["curl", "-X", "GET"];
    assert IsMethodFlag(ws[1]) && Strip(ws[2]) == "GET";
    assert Step(ws, 1, Initial) == Returned((3, Initial));
    ScanNext(ws, 1, Initial, 3, Initial);
    assert Scan(ws, 3, Initial) == Returned(Initial);
    ParseOfArgs(curl, ws);
  }

  /** A single-quoted data value keeps its spaces and double quotes inside one token. */
  lemma QuotedDataArgs(x: string, url: string)
    requires SingleSpaced(x) && '\'' !in x
    requires Bare(url)
    ensures Args(Join(["curl", "-d", "'" + x + "'", url])) == ["curl", "-d", "'" + x + "'", url]
  {
    var q := "'" + x + "'";
    BareIsSimple("curl");
    BareIsSimple("-d");
    BareIsSimple(url);
    assert forall i :: 0 < i < |q| - 1 ==> q[i] == x[i - 1];
    QuotedIsSimple(q, '\'');
    ArgsOfJoin(["curl", "-d", q, url]);
  }

  /** `-H"<x>"` is one word: the bare `-H` stops at the `"` and the quoted span follows. */
  lemma GluedQuotedWord(x: string)
    requires SingleSpaced(x) && '"' !in x
    ensures var g := "-H\"" + x + "\""; SimpleArg(g) && SingleSpaced(g)
  {
    var q := "\"" + x + "\"";
    var g := "-H\"" + x + "\"";
    assert g == "-H" + q;
    assert forall i :: 0 < i < |q| - 1 ==> q[i] == x[i - 1];
    QuotedIsSimple(q, '"');
    BareThenQuoted("-H", q);
    GluedSpacing(x, g);
  }

  /** Putting `-H"` before and `"` after single-spaced text keeps it single-spaced. */
  lemma GluedSpacing(x: string, g: string)
    requires SingleSpaced(x) && g == "-H\"" + x + "\""
    ensures SingleSpaced(g)
  {
    assert forall i :: 3 <= i < |g| - 1 ==> g[i] == x[i - 3];
    forall i | 0 <= i < |g| - 1
      ensures !(g[i] == ' ' && g[i + 1] == ' ')
    {
      if 3 <= i < |g| - 2 {
        assert g[i] == x[i - 3] && g[i + 1] == x[i - 2];
      }
    }
  }

  /** An option glued to a double-quoted value, `-H"<x>"`, is one token: the
      pattern's pieces repeat, so the bare `-H` runs on into the quoted span. */
  lemma GluedQuotedArgs(x: string, url: string)
    requires SingleSpaced(x) && '"' !in x
    requires Bare(url)
    ensures Args(Join(["curl", "-H\"" + x + "\"", url])) == ["curl", "-H\"" + x + "\"", url]
  {
    BareIsSimple("curl");
    BareIsSimple(url);
    GluedQuotedWord(x);
    ArgsOfJoin(["curl", "-H\"" + x + "\"", url]);
  }

  /** `curl "<url>` with the closing quote missing: the unmatched `"` is
      skipped and the URL is still an argument of its own. */
  lemma UnmatchedQuoteArgs(url: string)
    requires Bare(url)
    ensures Args("curl \"" + url) == ["curl", url]
  {
    var s := "curl \"" + url;
    UnmatchedQuoteSpaced(url);
    CleanFixpoint(s);
    UnmatchedQuoteTokens(s, url);
  }

  lemma UnmatchedQuoteSpaced(url: string)
    requires Bare(url)
    ensures SingleSpaced("curl \"" + url)
  {
    var s := "curl \"" + url;
    assert forall i :: 6 <= i < |s| ==> s[i] == url[i - 6];
  }

  lemma UnmatchedQuoteTokens(s: string, url: string)
    requires Bare(url) && s == "curl \"" + url
    ensures TokensFrom(s, 0) == ["curl", url]
  {
    assert s[0..4] == "curl" && s[4] == ' ';
    BareIsSimple("curl");
    SlicePlaced(s, 0, "curl");
    FirstWord(s, 0, "curl");
    assert s[5] == '"' && s[6..] == url;
    QuoteThenLastWord(s, 5, url);
  }

  /** An unmatched `"` followed by a bare word that ends the text: that word is the only token. */
  lemma QuoteThenLastWord(s: string, p: nat, w: string)
    requires Bare(w) && p + 1 + |w| == |s| && s[p] == '"' && s[p + 1..] == w
    ensures TokensFrom(s, p) == [w]
  {
    assert forall j :: p + 1 <= j < |s| ==> s[j] == w[j - p - 1];
    assert IndexOf(s, p + 1, '"') == -1;
    TokensFromUnmatchedQuote(s, p);
    SuffixPlaced(s, p + 1, w);
    BareIsSimple(w);
    OnlyWord(s, p + 1, w);
  }

  lemma DataFlagIsNoOther(a: string)
    requires IsDataFlag(a)
    ensures !IsMethodFlag(a) && !IsHeaderFlag(a)
  {
    if a == "-d" {
      assert a[1] == 'd';
    } else {
      assert a[2] == 'd';
    }
  }

  lemma DataStep(args: seq<string>, i: nat, st: CurlRequest)
    requires i + 1 < |args| && IsDataFlag(args[i])
    ensures Scan(args, i, st) == Scan(args, i + 2, st.(data := Strip(args[i + 1]), httpMethod := if st.httpMethod == "GET" then "POST" else st.httpMethod))
  {
    DataFlagIsNoOther(args[i]);
  }

  lemma PositionalStep(args: seq<string>, i: nat, st: CurlRequest)
    requires i < |args| && !IsDash(args[i])
    ensures Scan(args, i, st) == Scan(args, i + 1, if st.url == "" then st.(url := Strip(args[i])) else st)
  {
    assert !TakesValue(args[i]) by {
      if |args[i]| > 0 {
        assert args[i][0] != '-';
      }
    }
  }

  /** `curl -d '<x>' <url>` posts `x`, spaces and double quotes included, to `url`. */
  lemma QuotedDataKeepsSpaces(curl: string, x: string, url: string)
    requires Args(curl) == ["curl", "-d", "'" + x + "'", url]
    requires '\'' !in x
    requires |url| > 0 && !IsDash(url) && !IsQuote(url[0]) && !IsQuote(url[|url| - 1])
    ensures Parse(curl) == Returned(CurlRequest("POST", url, [], x))
  {
    var ws := ["curl", "-d", "'" + x + "'", url];
    StripQuoted('\'', x, '\'');
    StripUnquoted(url);
    DataStep(ws, 1, Initial);
    PositionalStep(ws, 3, CurlRequest("POST", "", [], x));
    ParseOfArgs(curl, ws);
  }

  /** `parseCurlCommand`: clean, tokenize, demand `curl` first, then scan the options. */
  method ParseCurlCommand(curl: string) returns (r: Outcome<CurlRequest>)
    ensures r == Parse(curl)
  {
    var cleaned := Clean(curl);
    var args := Tokenize(cleaned);
    if |args| == 0 || args[0] != "curl" {
      return Threw(NotACurlCommand);
    }
    r := ScanOptions(args);
  }

  /** The loop of lines 14-34 over the tokens after `curl`, proved to compute `Scan`. */
  method ScanOptions(args: seq<string>) returns (r: Outcome<CurlRequest>)
    ensures r == Scan(args, 1, Initial)
  {
    var httpMethod, url, headers, body := "GET", "", [], "";
    var i := 1;
    while i < |args|
      invariant 1 <= i
      invariant Scan(args, i, CurlRequest(httpMethod, url, headers, body)) == Scan(args, 1, Initial)
      decreases |args| - i
    {
      var arg := args[i];
      if IsMethodFlag(arg) {
        i := i + 1;
        if i >= |args| {
          return Threw(TypeError);
        }
        httpMethod := Strip(args[i]);
      } else if IsHeaderFlag(arg) {
        i := i + 1;
        if i >= |args| {
          return Threw(TypeError);
        }
        var header := Strip(args[i]);
        var kv := SplitAtColon(header);
        headers := headers + [Header(Trim(kv.0), Trim(kv.1))];
      } else if IsDataFlag(arg) {
        i := i + 1;
        if i >= |args| {
          return Threw(TypeError);
        }
        body := Strip(args[i]);
        if httpMethod == "GET" {
          httpMethod := "POST";
        }
      } else if !IsDash(arg) {
        if url == "" {
          url := Strip(arg);
        }
      }
      i := i + 1;
    }
    r := Returned(CurlRequest(httpMethod, url, headers, body));
  }
}
