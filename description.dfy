/** `formatDescription` of the main page: a release body turned into a little HTML. */
module Description {
  import opened Common
  import opened Strings
  import opened Releases

  const Placeholder := "<em>No description available</em>"
  const LineBreak := "<br>"

  predicate NoNewline(s: string) { '\n' !in s }

  /** What one character becomes under `.replace(/\n/g, '<br>')`. */
  function LineBreakPiece(c: char): string {
    if c == '\n' then LineBreak else [c]
  }

  /** `.replace(/\n/g, '<br>')`. */
  function ReplaceNewlines(s: string): string {
    if s == [] then [] else LineBreakPiece(s[0]) + ReplaceNewlines(s[1..])
  }

  /** Every newline is gone from the result, and a text without one is returned as it is. */
  lemma {:induction false} ReplaceNewlinesClean(s: string)
    ensures NoNewline(ReplaceNewlines(s))
    ensures NoNewline(s) ==> ReplaceNewlines(s) == s
  {
    if s != [] {
      ReplaceNewlinesClean(s[1..]);
      if NoNewline(s) {
        assert s == [s[0]] + s[1..];
      }
    }
  }

  /** The line-break pass works piece by piece. */
  lemma {:induction false} ReplaceNewlinesAppend(a: string, b: string)
    ensures ReplaceNewlines(a + b) == ReplaceNewlines(a) + ReplaceNewlines(b)
  {
    if a == [] {
      assert a + b == b;
    } else {
      assert (a + b)[0] == a[0] && (a + b)[1..] == a[1..] + b;
      ReplaceNewlinesAppend(a[1..], b);
    }
  }

  /** Each line feed becomes `<br>`, and the text around it is kept. */
  lemma LineFeedBecomesBreak(a: string, b: string)
    ensures ReplaceNewlines(a + "\n" + b) == ReplaceNewlines(a) + LineBreak + ReplaceNewlines(b)
  {
    ReplaceNewlinesAppend(a + "\n", b);
    ReplaceNewlinesAppend(a, "\n");
    assert ReplaceNewlines("\n") == LineBreak + ReplaceNewlines([]);
  }

  /** Where the lazy `(.*?)` after an opening delimiter at `j` stops: the first closing
      delimiter at or after `j` with no line terminator before it. */
  function CloseFrom(s: string, d: string, j: nat): (k: Option<nat>)
    requires d != []
    decreases |s| - j
    ensures k.Some? ==> j <= k.value && OccursAt(s, d, k.value)
  {
    if j + |d| > |s| then None
    else if OccursAt(s, d, j) then Some(j)
    else if IsLineTerminator(s[j]) then None
    else CloseFrom(s, d, j + 1)
  }

  /** A close that is found is the first delimiter at or after `j`, and no line terminator
      lies before it. */
  lemma {:induction false} CloseFromFirst(s: string, d: string, j: nat)
    requires d != [] && CloseFrom(s, d, j).Some?
    ensures forall m :: j <= m < CloseFrom(s, d, j).value ==> !IsLineTerminator(s[m]) && !OccursAt(s, d, m)
    decreases |s| - j
  {
    if !OccursAt(s, d, j) {
      CloseFromFirst(s, d, j + 1);
    }
  }

  /** When no close is found, every later delimiter lies beyond a line terminator: the lazy
      group cannot cross a line. */
  lemma {:induction false} CloseFromNone(s: string, d: string, j: nat, m: nat)
    requires d != [] && CloseFrom(s, d, j).None?
    requires j <= m && OccursAt(s, d, m)
    ensures exists q :: j <= q < m && IsLineTerminator(s[q])
    decreases |s| - j
  {
    if OccursAt(s, d, j) {
      assert false;
    } else if IsLineTerminator(s[j]) {
      assert j < m;
    } else {
      CloseFromNone(s, d, j + 1, m);
    }
  }

  /** `.replace(/D(.*?)D/g, open + '$1' + close)` for a delimiter `D`: from left to right,
      each match is replaced and the scan resumes after it. */
  function ReplacePairs(s: string, d: string, open: string, close: string): string
    requires d != []
    decreases |s|
  {
    if s == [] then []
    else if StartsWith(s, d) && CloseFrom(s, d, |d|).Some? then
      var k := CloseFrom(s, d, |d|).value;
      open + s[|d|..k] + close + ReplacePairs(s[k + |d|..], d, open, close)
    else [s[0]] + ReplacePairs(s[1..], d, open, close)
  }

  /** `formatDescription`: the placeholder for a missing or empty body and for the default
      the server fills in; otherwise line breaks, then bold, then italics. */
  function FormatDescription(text: Option<string>): string {
    if text.None? || text.value == [] || text.value == NoDescription then Placeholder
    else ReplacePairs(ReplacePairs(ReplaceNewlines(text.value), "**", "<strong>", "</strong>"), "*", "<em>", "</em>")
  }

  /** A text without the delimiter's first character has nothing to replace. */
  lemma {:induction false} ReplacePairsNoDelimiter(s: string, d: string, open: string, close: string)
    requires d != [] && forall i :: 0 <= i < |s| ==> s[i] != d[0]
    ensures ReplacePairs(s, d, open, close) == s
  {
    if s != [] {
      ReplacePairsStep(s, d, open, close);
      forall i | 0 <= i < |s[1..]| ensures s[1..][i] != d[0] {
        assert s[1..][i] == s[i + 1];
      }
      ReplacePairsNoDelimiter(s[1..], d, open, close);
      assert s == [s[0]] + s[1..];
    }
  }

  /** Replacing pairs brings in no newline of its own. */
  lemma {:induction false} ReplacePairsNoNewline(s: string, d: string, open: string, close: string)
    requires d != [] && NoNewline(s) && NoNewline(open) && NoNewline(close)
    ensures NoNewline(ReplacePairs(s, d, open, close))
  {
    if s != [] {
      if StartsWith(s, d) && CloseFrom(s, d, |d|).Some? {
        var k := CloseFrom(s, d, |d|).value;
        var mid, rest := s[|d|..k], s[k + |d|..];
        assert ReplacePairs(s, d, open, close) == open + mid + close + ReplacePairs(rest, d, open, close);
        NoNewlineSlice(s, |d|, k);
        NoNewlineSlice(s, k + |d|, |s|);
        ReplacePairsNoNewline(rest, d, open, close);
        NoNewlineJoin(open + mid, close, ReplacePairs(rest, d, open, close));
      } else {
        NoNewlineSlice(s, 1, |s|);
        ReplacePairsNoNewline(s[1..], d, open, close);
        NoNewlineJoin(s[..1], [], ReplacePairs(s[1..], d, open, close));
      }
    }
  }

  lemma NoNewlineSlice(s: string, i: nat, j: nat)
    requires NoNewline(s) && i <= j <= |s|
    ensures NoNewline(s[i..j]) && NoNewline(s[..i])
  {
    assert s == s[..i] + s[i..j] + s[j..];
  }

  lemma NoNewlineJoin(a: string, b: string, c: string)
    requires NoNewline(a) && NoNewline(b) && NoNewline(c)
    ensures NoNewline(a + b + c) && NoNewline(a + c)
  {
  }

  /** The formatted description never contains a newline: each became `<br>`. */
  lemma FormattedHasNoNewline(text: Option<string>)
    ensures NoNewline(FormatDescription(text))
  {
    if !(text.None? || text.value == [] || text.value == NoDescription) {
      var lines := ReplaceNewlines(text.value);
      ReplaceNewlinesClean(text.value);
      ReplacePairsNoNewline(lines, "**", "<strong>", "</strong>");
      ReplacePairsNoNewline(ReplacePairs(lines, "**", "<strong>", "</strong>"), "*", "<em>", "</em>");
    }
  }

  /** The placeholder stands for a missing body, an empty one and the server's default. */
  lemma PlaceholderCases(text: Option<string>)
    ensures FormatDescription(text) == Placeholder
      <== text.None? || text == Some("") || text == Some(NoDescription)
  {
  }

  predicate Plain(x: string) {
    forall i :: 0 <= i < |x| ==> x[i] != '*' && !IsLineTerminator(x[i])
  }

  /** `**x**` becomes `<strong>x</strong>`. */
  lemma BoldText(x: string)
    requires Plain(x)
    ensures FormatDescription(Some("**" + x + "**")) == "<strong>" + x + "</strong>"
  {
    var s := "**" + x + "**";
    var bold := "<strong>" + x + "</strong>";
    assert FormatDescription(Some(s))
        == ReplacePairs(ReplacePairs(ReplaceNewlines(s), "**", "<strong>", "</strong>"), "*", "<em>", "</em>") by {
      assert s[0] == '*' && s != NoDescription;
    }
    assert ReplaceNewlines(s) == s by {
      assert NoNewline(s);
      ReplaceNewlinesClean(s);
    }
    assert ReplacePairs(s, "**", "<strong>", "</strong>") == bold by {
      BoldPair(x);
    }
    assert ReplacePairs(bold, "*", "<em>", "</em>") == bold by {
      NoStarAround("<strong>", x, "</strong>");
      ReplacePairsNoDelimiter(bold, "*", "<em>", "</em>");
    }
  }

  /** Plain text between two tags without a star has no star. */
  lemma NoStarAround(a: string, x: string, b: string)
    requires '*' !in a && '*' !in b && Plain(x)
    ensures forall i :: 0 <= i < |a + x + b| ==> (a + x + b)[i] != '*'
  {
    var w := a + x + b;
    forall i | 0 <= i < |w| ensures w[i] != '*' {
      if i < |a| {
        assert w[i] == a[i] && a[i] in a;
      } else if i < |a| + |x| {
        assert w[i] == x[i - |a|];
      } else {
        assert w[i] == b[i - |a| - |x|] && b[i - |a| - |x|] in b;
      }
    }
  }

  /** The bold pass turns `**x**` into `<strong>x</strong>`. */
  lemma BoldPair(x: string)
    requires Plain(x)
    ensures ReplacePairs("**" + x + "**", "**", "<strong>", "</strong>") == "<strong>" + x + "</strong>"
  {
    var s := "**" + x + "**";
    assert s[..2] == "**";
    assert s[|x| + 2..|x| + 4] == "**";
    forall m | 2 <= m < |x| + 2 ensures s[m] != '*' && !IsLineTerminator(s[m]) {
      assert s[m] == x[m - 2];
    }
    CloseAfterPlain(s, "**", 2, |x| + 2);
    assert s[2..|x| + 2] == x;
    assert s[|x| + 4..] == [];
    assert ReplacePairs(s, "**", "<strong>", "</strong>") == "<strong>" + x + "</strong>" + [];
  }

  /** `*x*` becomes `<em>x</em>`. */
  lemma ItalicText(x: string)
    requires Plain(x)
    ensures FormatDescription(Some("*" + x + "*")) == "<em>" + x + "</em>"
  {
    var s := "*" + x + "*";
    assert FormatDescription(Some(s))
        == ReplacePairs(ReplacePairs(ReplaceNewlines(s), "**", "<strong>", "</strong>"), "*", "<em>", "</em>") by {
      assert s[0] == '*' && s != NoDescription;
    }
    assert ReplaceNewlines(s) == s by {
      assert NoNewline(s);
      ReplaceNewlinesClean(s);
    }
    assert ReplacePairs(s, "**", "<strong>", "</strong>") == s by {
      NoDoubleStar(x);
    }
    assert ReplacePairs(s, "*", "<em>", "</em>") == "<em>" + x + "</em>" by {
      ItalicPair(x);
    }
  }

  /** The italic pass turns `*x*` into `<em>x</em>`. */
  lemma ItalicPair(x: string)
    requires Plain(x)
    ensures ReplacePairs("*" + x + "*", "*", "<em>", "</em>") == "<em>" + x + "</em>"
  {
    var s := "*" + x + "*";
    assert s[..1] == "*";
    assert s[|x| + 1..|x| + 2] == "*";
    forall m | 1 <= m < |x| + 1 ensures s[m] != '*' && !IsLineTerminator(s[m]) {
      assert s[m] == x[m - 1];
    }
    CloseAfterPlain(s, "*", 1, |x| + 1);
    assert s[1..|x| + 1] == x;
    assert s[|x| + 2..] == [];
    assert ReplacePairs(s, "*", "<em>", "</em>") == "<em>" + x + "</em>" + [];
  }

  /** Between `j` and the delimiter at `k` there is neither a line terminator nor a delimiter
      character, so the lazy group ends at `k`. */
  lemma {:induction false} CloseAfterPlain(s: string, d: string, j: nat, k: nat)
    requires d != [] && j <= k && OccursAt(s, d, k)
    requires forall m :: j <= m < k ==> s[m] != d[0] && !IsLineTerminator(s[m])
    ensures CloseFrom(s, d, j) == Some(k)
    decreases k - j
  {
    if j < k {
      assert !OccursAt(s, d, j) by {
        assert s[j..j + |d|][0] == s[j];
      }
      CloseAfterPlain(s, d, j + 1, k);
    }
  }

  /** Text without the delimiter's first character is copied as it is, and the scan goes on
      after it. */
  lemma {:induction false} ReplacePairsSkip(p: string, t: string, d: string, open: string, close: string)
    requires d != [] && forall i :: 0 <= i < |p| ==> p[i] != d[0]
    ensures ReplacePairs(p + t, d, open, close) == p + ReplacePairs(t, d, open, close)
  {
    if p == [] {
      assert p + t == t;
    } else {
      var s := p + t;
      assert s[0] == p[0] && s[1..] == p[1..] + t;
      ReplacePairsStep(s, d, open, close);
      ReplacePairsSkip(p[1..], t, d, open, close);
      assert p == [p[0]] + p[1..];
    }
  }

  /** A first character that cannot start the delimiter is copied as it is. */
  lemma ReplacePairsStep(s: string, d: string, open: string, close: string)
    requires d != [] && s != [] && s[0] != d[0]
    ensures ReplacePairs(s, d, open, close) == [s[0]] + ReplacePairs(s[1..], d, open, close)
  {
    assert !StartsWith(s, d) by {
      if |d| <= |s| { assert s[..|d|][0] == s[0]; }
    }
  }

  /** A delimited pair at the front becomes `open x close`, and the scan resumes after the
      closing delimiter. */
  lemma ReplacePairsFront(x: string, rest: string, d: string, open: string, close: string)
    requires d != [] && forall i :: 0 <= i < |x| ==> x[i] != d[0] && !IsLineTerminator(x[i])
    ensures ReplacePairs(d + x + d + rest, d, open, close) == open + x + close + ReplacePairs(rest, d, open, close)
  {
    var t := d + x + d + rest;
    var k := |d| + |x|;
    assert t[..|d|] == d;
    assert t[k..k + |d|] == d;
    forall m | |d| <= m < k ensures t[m] != d[0] && !IsLineTerminator(t[m]) {
      assert t[m] == x[m - |d|];
    }
    CloseAfterPlain(t, d, |d|, k);
    assert t[|d|..k] == x;
    assert t[k + |d|..] == rest;
  }

  /** A delimited pair after plain text: the text is kept, the pair becomes `open x close`,
      and the scan resumes after the closing delimiter. */
  lemma ReplacePairsAt(p: string, x: string, rest: string, d: string, open: string, close: string)
    requires d != [] && forall i :: 0 <= i < |p| ==> p[i] != d[0]
    requires forall i :: 0 <= i < |x| ==> x[i] != d[0] && !IsLineTerminator(x[i])
    ensures ReplacePairs(p + d + x + d + rest, d, open, close)
      == p + open + x + close + ReplacePairs(rest, d, open, close)
  {
    assert p + d + x + d + rest == p + (d + x + d + rest);
    ReplacePairsSkip(p, d + x + d + rest, d, open, close);
    ReplacePairsFront(x, rest, d, open, close);
  }

  /** A text where no two stars are adjacent has no bold to replace. */
  lemma {:induction false} NoDoubleStarHelper(s: string)
    requires forall i :: 0 <= i < |s| - 1 ==> !(s[i] == '*' && s[i + 1] == '*')
    ensures ReplacePairs(s, "**", "<strong>", "</strong>") == s
  {
    if s != [] {
      assert !StartsWith(s, "**") by {
        if |s| >= 2 {
          assert s[..2][0] == s[0] && s[..2][1] == s[1];
        }
      }
      assert ReplacePairs(s, "**", "<strong>", "</strong>") == [s[0]] + ReplacePairs(s[1..], "**", "<strong>", "</strong>");
      forall i | 0 <= i < |s[1..]| - 1 ensures !(s[1..][i] == '*' && s[1..][i + 1] == '*') {
        assert s[1..][i] == s[i + 1] && s[1..][i + 1] == s[i + 2];
      }
      NoDoubleStarHelper(s[1..]);
      assert s == [s[0]] + s[1..];
    }
  }

  /** `*x*` holds bold only when `x` is empty: "**" then stays as it is. */
  lemma NoDoubleStar(x: string)
    requires Plain(x)
    ensures ReplacePairs("*" + x + "*", "**", "<strong>", "</strong>") == "*" + x + "*"
  {
    var s := "*" + x + "*";
    if x == [] {
      assert s == "**";
      assert CloseFrom(s, "**", 2).None?;
      assert s[1..] == "*";
      NoDoubleStarHelper(s[1..]);
    } else {
      forall i | 0 <= i < |s| - 1 ensures !(s[i] == '*' && s[i + 1] == '*') {
        if i == 0 {
          assert s[1] == x[0];
        } else {
          assert s[i] == x[i - 1];
        }
      }
      NoDoubleStarHelper(s);
    }
  }
}
