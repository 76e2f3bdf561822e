/**
  The Python string operations the core relies on, stated over `seq<char>`:
  `upper`/`lower` (ASCII), the substring test `x in y`, `replace` (leftmost,
  non-overlapping), `split(sep)`, `split('/')[-1]`, `split(None, 1)` and `"%d"`.
 */
module Text {

  // ---------------------------------------------------------------------
  // Case mapping, restricted to the ASCII letters. The texts the core
  // compares (names from XMPP stanzas and from sqlite) are unicode in the
  // source, whose `upper()` and `lower()` also map non-ASCII letters; that
  // part of the mapping is not modelled.
  // ---------------------------------------------------------------------

  function UpperChar(c: char): char {
    if 'a' <= c <= 'z' then (c as int - 32) as char else c
  }

  function LowerChar(c: char): char {
    if 'A' <= c <= 'Z' then (c as int + 32) as char else c
  }

  function Upper(s: string): string {
    seq(|s|, i requires 0 <= i < |s| => UpperChar(s[i]))
  }

  function Lower(s: string): string {
    seq(|s|, i requires 0 <= i < |s| => LowerChar(s[i]))
  }

  /** Lower-casing twice is lower-casing once. */
  lemma LowerIdempotent(s: string)
    ensures Lower(Lower(s)) == Lower(s)
  {
    assert |Lower(Lower(s))| == |Lower(s)|;
    forall i | 0 <= i < |s|
      ensures Lower(Lower(s))[i] == Lower(s)[i]
    {
    }
  }

  /** Upper-casing forgets earlier lower-casing: the comparison on names is case-blind. */
  lemma UpperOfLower(s: string)
    ensures Upper(Lower(s)) == Upper(s)
  {
    assert |Upper(Lower(s))| == |Upper(s)|;
    forall i | 0 <= i < |s|
      ensures Upper(Lower(s))[i] == Upper(s)[i]
    {
    }
  }

  /** Lower-casing forgets earlier upper-casing: the lookup by uuid is case-blind. */
  lemma LowerOfUpper(s: string)
    ensures Lower(Upper(s)) == Lower(s)
  {
    assert |Lower(Upper(s))| == |Lower(s)|;
    forall i | 0 <= i < |s|
      ensures Lower(Upper(s))[i] == Lower(s)[i]
    {
    }
  }

  /** A character that is not a letter occurs in the lower-cased text exactly where it occurs in the text. */
  lemma LowerKeepsNonLetter(s: string, c: char)
    requires !('A' <= c <= 'Z') && !('a' <= c <= 'z')
    ensures c in Lower(s) <==> c in s
  {
    if c in Lower(s) {
      var i :| 0 <= i < |s| && Lower(s)[i] == c;
      assert s[i] == c;
    }
    if c in s {
      var i :| 0 <= i < |s| && s[i] == c;
      assert Lower(s)[i] == c;
    }
  }

  // ---------------------------------------------------------------------
  // Substrings
  // ---------------------------------------------------------------------

  predicate StartsWith(s: string, p: string) {
    |p| <= |s| && s[..|p|] == p
  }

  /** Python's `p in s` for strings: `p` occurs somewhere in `s`. */
  predicate Contains(s: string, p: string)
    decreases |s|
  {
    StartsWith(s, p) || (|s| > 0 && Contains(s[1..], p))
  }

  /** For a one-character pattern, occurring is membership. */
  lemma {:induction false} ContainsChar(s: string, c: char)
    ensures Contains(s, [c]) <==> c in s
  {
    if |s| > 0 {
      ContainsChar(s[1..], c);
      assert s == [s[0]] + s[1..];
    }
  }

  /** A text holding `p` holds its first character. */
  lemma {:induction false} ContainsFirst(s: string, p: string)
    requires |p| > 0 && Contains(s, p)
    ensures p[0] in s
    decreases |s|
  {
    if StartsWith(s, p) {
      assert s[0] == p[0];
    } else {
      ContainsFirst(s[1..], p);
    }
  }

  /** A leading character that cannot start `p` does not help `p` occur. */
  lemma ContainsAfterHead(c: char, x: string, p: string)
    requires |p| > 0 && c != p[0]
    ensures Contains([c] + x, p) <==> Contains(x, p)
  {
    assert ([c] + x)[1..] == x;
  }

  // ---------------------------------------------------------------------
  // str.replace
  // ---------------------------------------------------------------------

  /** Python's `s.replace("", r)`: `r` before every character and at the end. */
  function Interleave(s: string, r: string): string
    decreases |s|
  {
    if |s| == 0 then r else r + [s[0]] + Interleave(s[1..], r)
  }

  /** Python's `s.replace(p, r)`: scan left to right, replace each non-overlapping `p`. */
  function Replace(s: string, p: string, r: string): string
    decreases |s|
  {
    if |p| == 0 then Interleave(s, r)
    else if |s| < |p| then s
    else if s[..|p|] == p then r + Replace(s[|p|..], p, r)
    else [s[0]] + Replace(s[1..], p, r)
  }

  /** Replacing a pattern that does not occur changes nothing. */
  lemma {:induction false} ReplaceAbsent(s: string, p: string, r: string)
    requires |p| > 0 && !Contains(s, p)
    ensures Replace(s, p, r) == s
  {
    if |s| >= |p| {
      ReplaceAbsent(s[1..], p, r);
      assert s == [s[0]] + s[1..];
    }
  }

  /** Replacing a character by a text without it removes every occurrence. */
  lemma {:induction false} ReplaceCharGone(s: string, c: char, r: string)
    requires c !in r
    ensures c !in Replace(s, [c], r)
  {
    if |s| >= 1 {
      ReplaceCharGone(s[1..], c, r);
      if s[..1] == [c] {
        assert s[1..] == s[|[c]|..];
      }
    }
  }

  /** A character absent from the text and from the replacement stays absent. */
  lemma {:induction false} ReplaceKeepsOut(s: string, p: string, r: string, c: char)
    requires |p| > 0 && c !in s && c !in r
    ensures c !in Replace(s, p, r)
  {
    if |s| >= |p| {
      if s[..|p|] == p {
        ReplaceKeepsOut(s[|p|..], p, r, c);
      } else {
        ReplaceKeepsOut(s[1..], p, r, c);
      }
    }
  }

  /** A text that starts with the pattern has that occurrence replaced first. */
  lemma ReplaceAtStart(p: string, y: string, r: string)
    requires |p| > 0
    ensures Replace(p + y, p, r) == r + Replace(y, p, r)
  {
    var s := p + y;
    assert s[..|p|] == p && s[|p|..] == y;
  }

  /** A prefix that holds no first character of `p` is copied unchanged. */
  lemma {:induction false} ReplaceSkipsPrefix(x: string, y: string, p: string, r: string)
    requires |p| > 0 && p[0] !in x
    ensures Replace(x + y, p, r) == x + Replace(y, p, r)
  {
    if |x| > 0 {
      var s := x + y;
      assert s[0] == x[0];
      assert s[1..] == x[1..] + y;
      ReplaceSkipsPrefix(x[1..], y, p, r);
      assert x == [x[0]] + x[1..];
      if |s| < |p| {
        assert Replace(x[1..] + y, p, r) == x[1..] + y;
      } else {
        assert s[..|p|][0] == x[0];
        assert s[..|p|] != p;
      }
    } else {
      assert x + y == y;
    }
  }

  /** After collapsing `".."` to `"_"`, the text starts with a dot only where a lone dot stood. */
  lemma CollapseHead(t: string)
    ensures |Replace(t, "..", "_")| > 0 && Replace(t, "..", "_")[0] == '.' ==>
              |t| > 0 && t[0] == '.' && (|t| == 1 || t[1] != '.')
  {
    if |t| >= 2 && t[..2] != ".." {
      assert Replace(t, "..", "_")[0] == t[0];
      assert t[0] == '.' ==> t[1] != '.';
    }
  }

  /** Collapsing `".."` to `"_"` leaves no two adjacent dots. */
  lemma {:induction false} CollapseLeavesNoPair(s: string)
    ensures !Contains(Replace(s, "..", "_"), "..")
    decreases |s|
  {
    var p := "..";
    if |s| < 2 {
      if |s| == 1 {
        assert Replace(s, p, "_") == s;
        assert !StartsWith(s, p);
        assert s[1..] == [];
      }
    } else if s[..2] == p {
      CollapseLeavesNoPair(s[2..]);
      ContainsAfterHead('_', Replace(s[2..], p, "_"), p);
      assert Replace(s, p, "_") == "_" + Replace(s[2..], p, "_");
    } else {
      var tail := Replace(s[1..], p, "_");
      CollapseLeavesNoPair(s[1..]);
      assert Replace(s, p, "_") == [s[0]] + tail;
      if s[0] == '.' {
        CollapseHead(s[1..]);
        assert s[1] != '.';
        assert ([s[0]] + tail)[1..] == tail;
        assert !StartsWith([s[0]] + tail, p);
      } else {
        ContainsAfterHead(s[0], tail, p);
      }
    }
  }

  // ---------------------------------------------------------------------
  // str.split(sep) and its inverse
  // ---------------------------------------------------------------------

  /** Python's `s.split(sep)` for a non-empty separator. */
  function Split(s: string, sep: string): (parts: seq<string>)
    requires |sep| > 0
    ensures |parts| > 0
    decreases |s|
  {
    if StartsWith(s, sep) then [""] + Split(s[|sep|..], sep)
    else if |s| == 0 then [""]
    else
      var rest := Split(s[1..], sep);
      [[s[0]] + rest[0]] + rest[1..]
  }

  /** Python's `sep.join(parts)`. */
  function Join(parts: seq<string>, sep: string): string
    requires |parts| > 0
    decreases |parts|
  {
    if |parts| == 1 then parts[0] else parts[0] + sep + Join(parts[1..], sep)
  }

  lemma {:induction false} JoinExtendsHead(x: string, parts: seq<string>, sep: string)
    requires |parts| > 0
    ensures Join([x + parts[0]] + parts[1..], sep) == x + Join(parts, sep)
  {
    var q := [x + parts[0]] + parts[1..];
    if |parts| > 1 {
      assert q[1..] == parts[1..];
    }
  }

  /** Joining the pieces with the separator gives back the text: split loses nothing. */
  lemma {:induction false} JoinSplit(s: string, sep: string)
    requires |sep| > 0
    ensures Join(Split(s, sep), sep) == s
    decreases |s|
  {
    if StartsWith(s, sep) {
      var rest := Split(s[|sep|..], sep);
      JoinSplit(s[|sep|..], sep);
      assert ([""] + rest)[1..] == rest;
      assert s == sep + s[|sep|..];
    } else if |s| > 0 {
      var rest := Split(s[1..], sep);
      JoinSplit(s[1..], sep);
      JoinExtendsHead([s[0]], rest, sep);
      assert s == [s[0]] + s[1..];
    }
  }

  /** Without the separator, split yields the text alone. */
  lemma {:induction false} SplitWithout(s: string, sep: string)
    requires |sep| > 0 && !Contains(s, sep)
    ensures Split(s, sep) == [s]
    decreases |s|
  {
    if |s| > 0 {
      SplitWithout(s[1..], sep);
      assert s == [s[0]] + s[1..];
    }
  }

  /** With the separator present, split yields at least two pieces. */
  lemma {:induction false} SplitWith(s: string, sep: string)
    requires |sep| > 0 && Contains(s, sep)
    ensures |Split(s, sep)| >= 2
    decreases |s|
  {
    if !StartsWith(s, sep) {
      SplitWith(s[1..], sep);
    }
  }

  /** A first field that cannot start the separator is split off exactly. */
  lemma {:induction false} SplitAfterField(x: string, sep: string, y: string)
    requires |sep| > 0 && sep[0] !in x
    ensures Split(x + sep + y, sep) == [x] + Split(y, sep)
    decreases |x|
  {
    var s := x + sep + y;
    if |x| == 0 {
      assert s == sep + y;
      assert s[..|sep|] == sep;
      assert s[|sep|..] == y;
    } else {
      assert s[0] == x[0];
      assert s[0] != sep[0];
      assert !StartsWith(s, sep);
      assert s[1..] == x[1..] + sep + y;
      SplitAfterField(x[1..], sep, y);
      assert x == [x[0]] + x[1..];
    }
  }

  /** No piece of a split on one character holds that character. */
  lemma {:induction false} SplitPiecesFree(s: string, c: char)
    ensures forall i :: 0 <= i < |Split(s, [c])| ==> c !in Split(s, [c])[i]
    decreases |s|
  {
    if StartsWith(s, [c]) {
      SplitPiecesFree(s[1..], c);
      assert s[|[c]|..] == s[1..];
    } else if |s| > 0 {
      SplitPiecesFree(s[1..], c);
      assert s[0] != c;
    }
  }

  // ---------------------------------------------------------------------
  // path.split('/')[-1]
  // ---------------------------------------------------------------------

  /**
    Python's `path.split("/")[-1]`: the text after the last `/`. The contract
    pins it down: a suffix free of `/` that is the whole text or follows a `/`.
   */
  function LastSegment(path: string): (r: string)
    ensures '/' !in r
    ensures |r| <= |path| && path[|path| - |r|..] == r
    ensures |r| == |path| || path[|path| - |r| - 1] == '/'
  {
    var parts := Split(path, "/");
    SplitPiecesFree(path, '/');
    LastSegmentOfJoin(parts);
    JoinSplit(path, "/");
    parts[|parts| - 1]
  }

  lemma {:induction false} LastSegmentOfJoin(parts: seq<string>)
    requires |parts| > 0
    ensures var j := Join(parts, "/"); var l := parts[|parts| - 1];
      |l| <= |j| && j[|j| - |l|..] == l && (|l| == |j| || j[|j| - |l| - 1] == '/')
    decreases |parts|
  {
    if |parts| > 1 {
      LastSegmentOfJoin(parts[1..]);
      var rest := Join(parts[1..], "/");
      assert Join(parts, "/") == (parts[0] + "/") + rest;
    }
  }

  /** After a final `/`, the last segment is exactly what follows it. */
  lemma {:induction false} LastSegmentAfter(x: string, y: string)
    requires '/' !in y
    ensures LastSegment(x + "/" + y) == y
  {
    var s := x + "/" + y;
    assert s[|s| - |y|..] == y;
    assert s[|s| - |y| - 1] == '/';
  }

  // ---------------------------------------------------------------------
  // str.split(None, 1)
  // ---------------------------------------------------------------------

  /**
    The ASCII blanks `split(None, 1)` splits on: space, tab, newline, vertical
    tab, form feed, carriage return. On unicode text Python also splits on
    other blanks (`\x1c`-`\x1f`, `\x85`, `\xa0` and the unicode spaces), which
    are not modelled.
   */
  predicate IsSpace(c: char) {
    c == ' ' || ('\t' <= c <= '\r')
  }

  function TrimLeft(s: string): (r: string)
    ensures |r| <= |s| && r == s[|s| - |r|..]
    ensures r == "" || !IsSpace(r[0])
    ensures forall i :: 0 <= i < |s| - |r| ==> IsSpace(s[i])
    decreases |s|
  {
    if |s| > 0 && IsSpace(s[0]) then TrimLeft(s[1..]) else s
  }

  function TakeWord(s: string): (w: string)
    ensures |w| <= |s| && w == s[..|w|]
    ensures forall i :: 0 <= i < |w| ==> !IsSpace(w[i])
    ensures |w| == |s| || IsSpace(s[|w|])
    decreases |s|
  {
    if |s| > 0 && !IsSpace(s[0]) then [s[0]] + TakeWord(s[1..]) else ""
  }

  /**
    Python's `body.split(None, 1)`: no tokens for a blank body; otherwise the
    first word, and the rest with its leading blanks removed when anything is left.
   */
  function SplitCommand(body: string): seq<string> {
    var t := TrimLeft(body);
    if t == "" then []
    else
      var w := TakeWord(t);
      var rest := TrimLeft(t[|w|..]);
      if rest == "" then [w] else [w, rest]
  }

  /**
    At most two tokens, none empty or starting with a blank, the first without
    any blank, and none at all exactly when the body is blank.
   */
  lemma SplitCommandShape(body: string, tokens: seq<string>)
    requires tokens == SplitCommand(body)
    ensures |tokens| <= 2
    ensures forall i :: 0 <= i < |tokens| ==> tokens[i] != "" && !IsSpace(tokens[i][0])
    ensures |tokens| > 0 ==> forall i :: 0 <= i < |tokens[0]| ==> !IsSpace(tokens[0][i])
    ensures |tokens| == 0 <==> forall i :: 0 <= i < |body| ==> IsSpace(body[i])
  {
    SplitCommandBlank(body);
    SplitCommandTokens(body);
    SplitCommandFirstToken(body);
  }

  /** At most two tokens, each non-empty and starting with a non-blank. */
  lemma SplitCommandTokens(body: string)
    ensures var tokens := SplitCommand(body);
      |tokens| <= 2 && forall i :: 0 <= i < |tokens| ==> tokens[i] != "" && !IsSpace(tokens[i][0])
  {
    var t := TrimLeft(body);
    if t != "" {
      FirstWord(t);
      var w := TakeWord(t);
      var rest := TrimLeft(t[|w|..]);
      assert SplitCommand(body) == if rest == "" then [w] else [w, rest];
      TokensShape(w, rest);
    } else {
      assert SplitCommand(body) == [];
    }
  }

  /** The first token has no blank at all. */
  lemma SplitCommandFirstToken(body: string)
    ensures var tokens := SplitCommand(body);
      |tokens| > 0 ==> forall i :: 0 <= i < |tokens[0]| ==> !IsSpace(tokens[0][i])
  {
  }

  /** A body splits into no tokens exactly when it is blank throughout. */
  lemma SplitCommandBlank(body: string)
    ensures SplitCommand(body) == [] <==> forall i :: 0 <= i < |body| ==> IsSpace(body[i])
  {
    var t := TrimLeft(body);
    if t != "" {
      assert SplitCommand(body) != [];
      assert body[|body| - |t|] == t[0];
    }
  }

  /** A text that starts with a non-blank starts with a non-empty word. */
  lemma FirstWord(t: string)
    requires t != "" && !IsSpace(t[0])
    ensures TakeWord(t) != "" && TakeWord(t)[0] == t[0]
  {
  }

  /** A word and a remainder starting with a non-blank make tokens that are non-empty and start with non-blanks. */
  lemma TokensShape(w: string, rest: string)
    requires w != "" && !IsSpace(w[0])
    requires rest == "" || !IsSpace(rest[0])
    ensures var tokens := if rest == "" then [w] else [w, rest];
      forall i :: 0 <= i < |tokens| ==> tokens[i] != "" && !IsSpace(tokens[i][0])
  {
  }

  lemma {:induction false} TakeWordStops(w: string, tail: string)
    requires forall i :: 0 <= i < |w| ==> !IsSpace(w[i])
    requires tail == "" || IsSpace(tail[0])
    ensures TakeWord(w + tail) == w
    decreases |w|
  {
    if |w| > 0 {
      assert (w + tail)[1..] == w[1..] + tail;
      TakeWordStops(w[1..], tail);
      assert w == [w[0]] + w[1..];
    } else {
      assert w + tail == tail;
    }
  }

  /** A command word, one blank and an argument split back into the two. */
  lemma CommandWithArgument(cmd: string, arg: string)
    requires cmd != "" && forall i :: 0 <= i < |cmd| ==> !IsSpace(cmd[i])
    requires arg != "" && !IsSpace(arg[0])
    ensures SplitCommand(cmd + " " + arg) == [cmd, arg]
  {
    var body := cmd + " " + arg;
    assert TrimLeft(body) == body;
    TakeWordStops(cmd, " " + arg);
    assert body == cmd + (" " + arg);
    assert body[|cmd|..] == " " + arg;
    assert (" " + arg)[1..] == arg;
  }

  /** A lone command word splits into itself. */
  lemma CommandAlone(cmd: string)
    requires cmd != "" && forall i :: 0 <= i < |cmd| ==> !IsSpace(cmd[i])
    ensures SplitCommand(cmd) == [cmd]
  {
    TakeWordStops(cmd, "");
    assert cmd + "" == cmd;
  }

  // ---------------------------------------------------------------------
  // "%d" % n
  // ---------------------------------------------------------------------

  function DigitChar(d: nat): char
    requires d < 10
  {
    ('0' as int + d) as char
  }

  /** Python's `"%d" % n` for a non-negative `n`. */
  function NatToString(n: nat): (r: string)
    ensures |r| > 0
    ensures n >= 10 ==> |r| >= 2
    decreases n
  {
    if n < 10 then [DigitChar(n)] else NatToString(n / 10) + [DigitChar(n % 10)]
  }

  /** Different numbers print differently. */
  lemma {:induction false} NatToStringInjective(a: nat, b: nat)
    requires NatToString(a) == NatToString(b)
    ensures a == b
    decreases a
  {
    if a >= 10 && b >= 10 {
      var sa, sb := NatToString(a / 10), NatToString(b / 10);
      assert NatToString(a) == sa + [DigitChar(a % 10)];
      assert NatToString(b) == sb + [DigitChar(b % 10)];
      assert |sa| == |sb|;
      assert sa == NatToString(a)[..|sa|];
      assert sb == NatToString(b)[..|sb|];
      NatToStringInjective(a / 10, b / 10);
      assert DigitChar(a % 10) == NatToString(a)[|sa|];
    }
  }
}
