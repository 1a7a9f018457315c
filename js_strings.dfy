/**
 * The JavaScript string operations the core relies on: the `\s` and `\w`
 * character classes, `trim`, `toLowerCase`, `replace(/\s+/g, c)`,
 * `split(";")`, `length` in UTF-16 code units, and the order used by
 * `sort()` and `<` (compared here by code point).
 */
module JsStrings {

  /** `\s`: the WhiteSpace and LineTerminator code points of ECMAScript. */
  predicate IsSpace(c: char) {
    var n := c as int;
    n == 0x09 || n == 0x0A || n == 0x0B || n == 0x0C || n == 0x0D || n == 0x20
    || n == 0xA0 || n == 0x1680 || (0x2000 <= n <= 0x200A) || n == 0x2028
    || n == 0x2029 || n == 0x202F || n == 0x205F || n == 0x3000 || n == 0xFEFF
  }

  /** The characters `.` does not match and before which a multiline `$` matches. */
  predicate IsLineTerminator(c: char) {
    var n := c as int;
    n == 0x0A || n == 0x0D || n == 0x2028 || n == 0x2029
  }

  /** `\w` (without the `u` flag): ASCII letters, digits and underscore. */
  predicate IsWordChar(c: char) {
    ('a' <= c <= 'z') || ('A' <= c <= 'Z') || ('0' <= c <= '9') || c == '_'
  }

  lemma SpaceNotWord(c: char)
    ensures IsSpace(c) ==> !IsWordChar(c)
  {
  }

  predicate AllSpace(s: string) {
    forall i | 0 <= i < |s| :: IsSpace(s[i])
  }

  // ---------------------------------------------------------------------
  // toLowerCase

  function LowerChar(c: char): char {
    if 'A' <= c <= 'Z' then (c as int + 32) as char else c
  }

  /** `toLowerCase`, on the ASCII letters. */
  function Lower(s: string): string {
    seq(|s|, i requires 0 <= i < |s| => LowerChar(s[i]))
  }

  lemma LowerCharKeepsClasses(c: char)
    ensures IsSpace(LowerChar(c)) == IsSpace(c)
    ensures IsWordChar(LowerChar(c)) == IsWordChar(c)
    ensures IsLineTerminator(LowerChar(c)) == IsLineTerminator(c)
    ensures LowerChar(LowerChar(c)) == LowerChar(c)
    ensures !('A' <= LowerChar(c) <= 'Z')
  {
  }

  lemma LowerSlice(s: string, a: int, b: int)
    requires 0 <= a <= b <= |s|
    ensures Lower(s)[a..b] == Lower(s[a..b])
  {
  }

  lemma LowerSuffix(s: string, n: int)
    requires 0 <= n <= |s|
    ensures Lower(s)[n..] == Lower(s[n..])
  {
    LowerSlice(s, n, |s|);
    assert s[n..|s|] == s[n..];
  }

  lemma LowerAppend(s: string, t: string)
    ensures Lower(s + t) == Lower(s) + Lower(t)
  {
  }

  lemma LowerIdempotent(s: string)
    ensures Lower(Lower(s)) == Lower(s)
  {
    forall i | 0 <= i < |s| ensures Lower(Lower(s))[i] == Lower(s)[i] {
      LowerCharKeepsClasses(s[i]);
    }
  }

  // ---------------------------------------------------------------------
  // trim

  /** The length of the longest all-space prefix of `s`. */
  function LeadingSpaces(s: string): (a: nat)
    ensures a <= |s|
    ensures forall i | 0 <= i < a :: IsSpace(s[i])
    ensures a < |s| ==> !IsSpace(s[a])
    decreases |s|
  {
    if s != [] && IsSpace(s[0]) then 1 + LeadingSpaces(s[1..]) else 0
  }

  /** The length of `s` without its longest all-space suffix. */
  function TrailingStart(s: string): (b: nat)
    ensures b <= |s|
    ensures forall i | b <= i < |s| :: IsSpace(s[i])
    ensures 0 < b ==> !IsSpace(s[b - 1])
    decreases |s|
  {
    if s != [] && IsSpace(s[|s| - 1]) then TrailingStart(s[..|s| - 1]) else |s|
  }

  /** `String.prototype.trim`. */
  function Trim(s: string): (r: string)
    ensures r == [] <==> AllSpace(s)
    ensures r != [] ==> !IsSpace(r[0]) && !IsSpace(r[|r| - 1])
    ensures TrimmedAt(s, LeadingSpaces(s), r)
  {
    var a, b := LeadingSpaces(s), TrailingStart(s);
    if b <= a then
      assert AllSpace(s);
      []
    else
      s[a..b]
  }

  /** `r` sits at offset `a` of `s`, and everything around it is space. */
  ghost predicate TrimmedAt(s: string, a: int, r: string) {
    && 0 <= a <= a + |r| <= |s|
    && s[a..a + |r|] == r
    && (forall i | 0 <= i < a :: IsSpace(s[i]))
    && (forall i | a + |r| <= i < |s| :: IsSpace(s[i]))
  }

  /** A string with no space at either end is its own trim. */
  lemma TrimUnspaced(s: string)
    requires s != [] ==> !IsSpace(s[0]) && !IsSpace(s[|s| - 1])
    ensures Trim(s) == s
  {
    if s != [] {
      assert LeadingSpaces(s) == 0;
      assert TrailingStart(s) == |s|;
    }
  }

  lemma TrimIdempotent(s: string)
    ensures Trim(Trim(s)) == Trim(s)
  {
    TrimUnspaced(Trim(s));
  }

  lemma LowerTrim(s: string)
    ensures Lower(Trim(s)) == Trim(Lower(s))
  {
    var t := Lower(s);
    forall i | 0 <= i < |s| ensures IsSpace(t[i]) == IsSpace(s[i]) {
      LowerCharKeepsClasses(s[i]);
    }
    assert LeadingSpaces(t) == LeadingSpaces(s);
    assert TrailingStart(t) == TrailingStart(s);
    var a, b := LeadingSpaces(s), TrailingStart(s);
    if a < b {
      LowerSlice(s, a, b);
    }
  }

  /**
   * Text made of all-space `p`, then `k` with no space at either end, then
   * anything, trims to text that starts with `k`.
   */
  lemma TrimKeepsLead(p: string, k: string, t: string)
    requires AllSpace(p) && k != [] && !IsSpace(k[0]) && !IsSpace(k[|k| - 1])
    ensures |k| <= |Trim(p + k + t)| && Trim(p + k + t)[..|k|] == k
  {
    var s := p + k + t;
    assert forall i | 0 <= i < |p| :: s[i] == p[i];
    assert s[|p|] == k[0] && s[|p| + |k| - 1] == k[|k| - 1];
    var a := LeadingSpaces(s);
    assert a == |p|;
    var r := Trim(s);
    assert a + |r| >= |p| + |k|;
    assert s[|p|..|p| + |k|] == k;
    assert r[..|k|] == s[a..a + |r|][..|k|];
  }

  // ---------------------------------------------------------------------
  // length

  /** `length`: UTF-16 code units, two for each character above U+FFFF. */
  function Utf16Length(s: string): (n: nat)
    ensures |s| <= n <= 2 * |s|
    decreases |s|
  {
    if s == [] then 0 else (if s[0] as int > 0xFFFF then 2 else 1) + Utf16Length(s[1..])
  }

  /** Text within the Basic Multilingual Plane has one code unit per character. */
  lemma {:induction false} Utf16LengthBmp(s: string)
    requires forall i | 0 <= i < |s| :: s[i] as int <= 0xFFFF
    ensures Utf16Length(s) == |s|
    decreases |s|
  {
    if s != [] {
      Utf16LengthBmp(s[1..]);
    }
  }

  /** Text made only of characters above U+FFFF has two code units per character. */
  lemma {:induction false} Utf16LengthAstral(s: string)
    requires forall i | 0 <= i < |s| :: s[i] as int > 0xFFFF
    ensures Utf16Length(s) == 2 * |s|
    decreases |s|
  {
    if s != [] {
      Utf16LengthAstral(s[1..]);
    }
  }

  /** Lower-casing keeps the length. */
  lemma {:induction false} LowerUtf16Length(s: string)
    ensures Utf16Length(Lower(s)) == Utf16Length(s)
    decreases |s|
  {
    if s != [] {
      LowerSuffix(s, 1);
      LowerUtf16Length(s[1..]);
    }
  }

  // ---------------------------------------------------------------------
  // replace(/\s+/g, c)

  /** `s.replace(/\s+/g, c)`: every maximal run of space becomes the one character `c`. */
  function ReplaceSpaceRuns(s: string, c: char): (r: string)
    ensures forall i | 0 <= i < |r| && IsSpace(r[i]) :: r[i] == c
    ensures forall i, j | 0 <= i && j == i + 1 < |r| && IsSpace(r[i]) :: !IsSpace(r[j])
    ensures s != [] && IsSpace(s[0]) ==> r != [] && r[0] == c
    ensures s != [] && !IsSpace(s[0]) ==> r != [] && r[0] == s[0]
    ensures IsSpace(c) ==> (AllSpace(r) <==> AllSpace(s))
    decreases |s|
  {
    if s == [] then []
    else if IsSpace(s[0]) then
      var n := LeadingSpaces(s);
      var rest := ReplaceSpaceRuns(s[n..], c);
      assert s == s[..n] + s[n..];
      assert ([c] + rest)[1..] == rest;
      assert AllSpace(s[n..]) ==> s[n..] == [];
      [c] + rest
    else
      var rest := ReplaceSpaceRuns(s[1..], c);
      assert !AllSpace(s) && !AllSpace([s[0]] + rest) by {
        assert ([s[0]] + rest)[0] == s[0];
      }
      [s[0]] + rest
  }

  lemma {:induction false} LowerReplaceSpaceRuns(s: string, c: char)
    requires !('A' <= c <= 'Z')
    ensures Lower(ReplaceSpaceRuns(s, c)) == ReplaceSpaceRuns(Lower(s), c)
    decreases |s|
  {
    if s != [] {
      var t := Lower(s);
      LowerCharKeepsClasses(s[0]);
      if IsSpace(s[0]) {
        var n := LeadingSpaces(s);
        assert LeadingSpaces(t) == n by {
          forall i | 0 <= i < |s| ensures IsSpace(t[i]) == IsSpace(s[i]) {
            LowerCharKeepsClasses(s[i]);
          }
        }
        LowerSlice(s, n, |s|);
        assert t[n..] == Lower(s[n..]);
        LowerReplaceSpaceRuns(s[n..], c);
        LowerAppend([c], ReplaceSpaceRuns(s[n..], c));
        assert Lower([c]) == [c];
      } else {
        LowerSlice(s, 1, |s|);
        assert t[1..] == Lower(s[1..]);
        LowerReplaceSpaceRuns(s[1..], c);
        LowerAppend([s[0]], ReplaceSpaceRuns(s[1..], c));
        assert Lower([s[0]]) == [t[0]];
      }
    }
  }

  /** Text without space is left as it is. */
  lemma {:induction false} ReplaceSpaceRunsUnspaced(s: string, c: char)
    requires forall i | 0 <= i < |s| :: !IsSpace(s[i])
    ensures ReplaceSpaceRuns(s, c) == s
    decreases |s|
  {
    if s != [] {
      ReplaceSpaceRunsUnspaced(s[1..], c);
      assert s == [s[0]] + s[1..];
    }
  }

  /** The replacement brings in no character but `c`. */
  lemma {:induction false} ReplaceSpaceRunsChars(s: string, c: char)
    ensures forall i | 0 <= i < |ReplaceSpaceRuns(s, c)| :: ReplaceSpaceRuns(s, c)[i] == c || ReplaceSpaceRuns(s, c)[i] in s
    decreases |s|
  {
    if s != [] {
      var r := ReplaceSpaceRuns(s, c);
      if IsSpace(s[0]) {
        var n := LeadingSpaces(s);
        ReplaceSpaceRunsChars(s[n..], c);
        forall i | 1 <= i < |r| ensures r[i] == c || r[i] in s {
          assert r[i] == ReplaceSpaceRuns(s[n..], c)[i - 1];
        }
      } else {
        ReplaceSpaceRunsChars(s[1..], c);
        forall i | 1 <= i < |r| ensures r[i] == c || r[i] in s {
          assert r[i] == ReplaceSpaceRuns(s[1..], c)[i - 1];
        }
      }
    }
  }

  /** Text whose whitespace is already single `c`s is left as it is. */
  lemma {:induction false} ReplaceSpaceRunsSingle(s: string, c: char)
    requires forall i | 0 <= i < |s| && IsSpace(s[i]) :: s[i] == c
    requires forall i | 0 <= i < |s| - 1 && IsSpace(s[i]) :: !IsSpace(s[i + 1])
    ensures ReplaceSpaceRuns(s, c) == s
    decreases |s|
  {
    if s != [] {
      ReplaceSpaceRunsSingle(s[1..], c);
      if IsSpace(s[0]) {
        assert LeadingSpaces(s) == 1;
      }
      assert s == [s[0]] + s[1..];
    }
  }

  /** `s` with its whitespace and every `c` taken out. */
  function Unspaced(s: string, c: char): string
    decreases |s|
  {
    if s == [] then []
    else if IsSpace(s[0]) || s[0] == c then Unspaced(s[1..], c)
    else [s[0]] + Unspaced(s[1..], c)
  }

  /** An all-space prefix contributes nothing to `Unspaced`. */
  lemma {:induction false} UnspacedSkipsSpaces(s: string, c: char, n: nat)
    requires n <= |s| && forall i | 0 <= i < n :: IsSpace(s[i])
    ensures Unspaced(s, c) == Unspaced(s[n..], c)
    decreases n
  {
    if n > 0 {
      UnspacedSkipsSpaces(s[1..], c, n - 1);
      assert s[1..][n - 1..] == s[n..];
    }
  }

  /**
   * The replacement keeps every other character in order: with whitespace
   * and `c` taken out, the text before and after is the same.
   */
  lemma {:induction false} ReplaceSpaceRunsKeepsText(s: string, c: char)
    ensures Unspaced(ReplaceSpaceRuns(s, c), c) == Unspaced(s, c)
    decreases |s|
  {
    if s != [] {
      var r := ReplaceSpaceRuns(s, c);
      if IsSpace(s[0]) {
        var n := LeadingSpaces(s);
        ReplaceSpaceRunsKeepsText(s[n..], c);
        assert r[1..] == ReplaceSpaceRuns(s[n..], c);
        UnspacedSkipsSpaces(s, c, n);
      } else {
        ReplaceSpaceRunsKeepsText(s[1..], c);
        assert r[1..] == ReplaceSpaceRuns(s[1..], c);
      }
    }
  }

  /** A non-empty run of whitespace alone becomes the single character `c`. */
  lemma ReplaceSpaceRunsAllSpace(w: string, c: char)
    requires w != [] && AllSpace(w)
    ensures ReplaceSpaceRuns(w, c) == [c]
  {
    assert LeadingSpaces(w) == |w|;
    assert w[|w|..] == [];
  }

  /**
   * The replacement works run by run: cut between a non-space character
   * and anything (or at either end), the two sides are replaced apart.
   * With ReplaceSpaceRunsAllSpace this puts one `c` where each run was.
   */
  lemma {:induction false} ReplaceSpaceRunsAppend(s: string, t: string, c: char)
    requires s == [] || t == [] || !IsSpace(s[|s| - 1]) || !IsSpace(t[0])
    ensures ReplaceSpaceRuns(s + t, c) == ReplaceSpaceRuns(s, c) + ReplaceSpaceRuns(t, c)
    decreases |s|, 1
  {
    if s == [] {
      assert s + t == t && ReplaceSpaceRuns(s, c) == [];
    } else if t == [] {
      assert s + t == s && ReplaceSpaceRuns(t, c) == [];
    } else {
      AppendAfterHead(s, t, c);
    }
  }

  /** The inductive step of ReplaceSpaceRunsAppend: past the first character or run of `s`. */
  lemma {:induction false} AppendAfterHead(s: string, t: string, c: char)
    requires s != [] && t != [] && (!IsSpace(s[|s| - 1]) || !IsSpace(t[0]))
    ensures ReplaceSpaceRuns(s + t, c) == ReplaceSpaceRuns(s, c) + ReplaceSpaceRuns(t, c)
    decreases |s|, 0
  {
    if IsSpace(s[0]) {
      var n := LeadingSpaces(s);
      ReplaceSpaceRunsRunStep(s, t, c);
      CutTail(s, t, n);
      ReplaceSpaceRunsAppend(s[n..], t, c);
      PrependAssoc([c], ReplaceSpaceRuns(s[n..], c), ReplaceSpaceRuns(t, c), ReplaceSpaceRuns(s, c));
    } else {
      ReplaceSpaceRunsWordStep(s, t, c);
      CutTail(s, t, 1);
      ReplaceSpaceRunsAppend(s[1..], t, c);
      PrependAssoc([s[0]], ReplaceSpaceRuns(s[1..], c), ReplaceSpaceRuns(t, c), ReplaceSpaceRuns(s, c));
    }
  }

  /** Dropping a prefix of `s` keeps the cut between `s` and `t` outside any run. */
  lemma CutTail(s: string, t: string, k: nat)
    requires s != [] && t != [] && (!IsSpace(s[|s| - 1]) || !IsSpace(t[0]))
    requires 0 < k <= |s|
    ensures s[k..] == [] || !IsSpace(s[k..][|s| - k - 1]) || !IsSpace(t[0])
  {
    if k < |s| {
      assert s[k..][|s| - k - 1] == s[|s| - 1];
    }
  }

  /** Text `x` in front of `a`, making `u`, then `b` after it. */
  lemma PrependAssoc(x: string, a: string, b: string, u: string)
    requires u == x + a
    ensures x + (a + b) == u + b
  {
  }

  /** A non-space character in front is copied, on `s` and on `s + t` alike. */
  lemma ReplaceSpaceRunsWordStep(s: string, t: string, c: char)
    requires s != [] && !IsSpace(s[0])
    ensures ReplaceSpaceRuns(s, c) == [s[0]] + ReplaceSpaceRuns(s[1..], c)
    ensures ReplaceSpaceRuns(s + t, c) == [s[0]] + ReplaceSpaceRuns(s[1..] + t, c)
  {
    assert (s + t)[0] == s[0] && (s + t)[1..] == s[1..] + t;
  }

  /**
   * A leading run becomes one `c`, on `s` and on `s + t` alike, when `t`
   * does not lengthen the run.
   */
  lemma ReplaceSpaceRunsRunStep(s: string, t: string, c: char)
    requires s != [] && IsSpace(s[0])
    requires LeadingSpaces(s) < |s| || t == [] || !IsSpace(t[0])
    ensures ReplaceSpaceRuns(s, c) == [c] + ReplaceSpaceRuns(s[LeadingSpaces(s)..], c)
    ensures ReplaceSpaceRuns(s + t, c) == [c] + ReplaceSpaceRuns(s[LeadingSpaces(s)..] + t, c)
  {
    var n := LeadingSpaces(s);
    LeadingSpacesAppend(s, t);
    assert (s + t)[0] == s[0] && (s + t)[n..] == s[n..] + t;
  }

  /** A whitespace run between two non-space characters becomes one `c` in its place. */
  lemma ReplaceSpaceRunsBetween(a: string, w: string, b: string, c: char)
    requires a != [] && !IsSpace(a[|a| - 1])
    requires w != [] && AllSpace(w)
    requires b != [] && !IsSpace(b[0])
    ensures ReplaceSpaceRuns(a + w + b, c) == ReplaceSpaceRuns(a, c) + [c] + ReplaceSpaceRuns(b, c)
  {
    var wb := w + b;
    assert a + w + b == a + wb;
    ReplaceSpaceRunsAppend(w, b, c);
    ReplaceSpaceRunsAllSpace(w, c);
    ReplaceSpaceRunsAppend(a, wb, c);
    calc {
      ReplaceSpaceRuns(a + wb, c);
      ReplaceSpaceRuns(a, c) + ReplaceSpaceRuns(wb, c);
      ReplaceSpaceRuns(a, c) + ([c] + ReplaceSpaceRuns(b, c));
    }
  }

  /** Text added after a non-space character, or starting with one, leaves the leading run alone. */
  lemma {:induction false} LeadingSpacesAppend(s: string, t: string)
    requires LeadingSpaces(s) < |s| || t == [] || !IsSpace(t[0])
    ensures LeadingSpaces(s + t) == LeadingSpaces(s)
    decreases |s|
  {
    if s == [] {
      assert s + t == t;
    } else if IsSpace(s[0]) {
      assert (s + t)[0] == s[0] && (s + t)[1..] == s[1..] + t;
      LeadingSpacesAppend(s[1..], t);
    } else {
      assert (s + t)[0] == s[0];
    }
  }

  // ---------------------------------------------------------------------
  // split

  /** `s.split(d)`: the pieces between occurrences of `d`, empty ones included. */
  function Split(s: string, d: char): (r: seq<string>)
    ensures |r| >= 1
    ensures forall j | 0 <= j < |r| :: d !in r[j]
    decreases |s|
  {
    if s == [] then [[]]
    else
      var rest := Split(s[1..], d);
      if s[0] == d then [[]] + rest
      else [[s[0]] + rest[0]] + rest[1..]
  }

  /** Text without the separator splits into itself alone. */
  lemma {:induction false} SplitWithoutSeparator(s: string, d: char)
    requires d !in s
    ensures Split(s, d) == [s]
    decreases |s|
  {
    if s != [] {
      assert d !in s[1..] by {
        assert forall c | c in s[1..] :: c in s;
      }
      SplitWithoutSeparator(s[1..], d);
      assert s == [s[0]] + s[1..];
    }
  }

  /** `pieces.join(d)`. */
  function Join(pieces: seq<string>, d: char): string
    decreases |pieces|
  {
    if pieces == [] then []
    else if |pieces| == 1 then pieces[0]
    else pieces[0] + [d] + Join(pieces[1..], d)
  }

  /** Splitting loses nothing: joining the pieces back gives the input. */
  lemma {:induction false} JoinSplit(s: string, d: char)
    ensures Join(Split(s, d), d) == s
    decreases |s|
  {
    if s != [] {
      var rest := Split(s[1..], d);
      JoinSplit(s[1..], d);
      if s[0] == d {
        assert Split(s, d)[1..] == rest;
      } else {
        var r := Split(s, d);
        assert r[1..] == rest[1..];
        if |rest| > 1 {
          assert rest[1..][1..] == rest[2..];
        }
      }
    }
  }

  /** Splitting a joined list of `d`-free pieces gives the pieces back. */
  lemma {:induction false} SplitJoin(pieces: seq<string>, d: char)
    requires |pieces| >= 1
    requires forall j | 0 <= j < |pieces| :: d !in pieces[j]
    ensures Split(Join(pieces, d), d) == pieces
    decreases |pieces|, |pieces[0]|
  {
    var p := pieces[0];
    if p == [] {
      if |pieces| > 1 {
        SplitJoin(pieces[1..], d);
        assert Join(pieces, d) == [d] + Join(pieces[1..], d);
        assert ([d] + Join(pieces[1..], d))[1..] == Join(pieces[1..], d);
      }
    } else {
      var tail := [p[1..]] + pieces[1..];
      SplitJoin(tail, d);
      assert tail[1..] == pieces[1..];
      assert Join(pieces, d) == [p[0]] + Join(tail, d) by {
        if |pieces| > 1 {
          assert p == [p[0]] + p[1..];
        }
      }
      assert ([p[0]] + Join(tail, d))[1..] == Join(tail, d);
      assert p[0] != d by { assert p[0] in p; }
      assert [p[0]] + p[1..] == p;
    }
  }

  /** `toLowerCase` applied to every piece. */
  function LowerAll(pieces: seq<string>): seq<string> {
    seq(|pieces|, j requires 0 <= j < |pieces| => Lower(pieces[j]))
  }

  lemma LowerAllAppend(a: seq<string>, b: seq<string>)
    ensures LowerAll(a + b) == LowerAll(a) + LowerAll(b)
  {
  }

  lemma {:induction false} LowerSplit(s: string, d: char)
    requires !IsWordChar(d)
    ensures Split(Lower(s), d) == LowerAll(Split(s, d))
    decreases |s|
  {
    if s != [] {
      LowerSplit(s[1..], d);
      LowerSplitStep(s, d);
    }
  }

  /** One step of LowerSplit: from the tail of `s` to all of it. */
  lemma {:induction false} LowerSplitStep(s: string, d: char)
    requires !IsWordChar(d) && s != []
    requires Split(Lower(s[1..]), d) == LowerAll(Split(s[1..], d))
    ensures Split(Lower(s), d) == LowerAll(Split(s, d))
  {
    var t := Lower(s);
    LowerSlice(s, 1, |s|);
    assert t[1..] == Lower(s[1..]);
    LowerCharKeepsClasses(s[0]);
    assert t[0] == d <==> s[0] == d;
    if s[0] == d {
      LowerSplitAtSeparator(s[1..], t[1..], d);
    } else {
      LowerSplitInPiece(s[0], t[0], s[1..], t[1..], d);
    }
    assert [s[0]] + s[1..] == s && [t[0]] + t[1..] == t;
  }

  /** A separator in front starts a new, empty piece on both sides. */
  lemma LowerSplitAtSeparator(u: string, lu: string, d: char)
    requires Split(lu, d) == LowerAll(Split(u, d))
    ensures Split([d] + lu, d) == LowerAll(Split([d] + u, d))
  {
    assert ([d] + u)[1..] == u && ([d] + lu)[1..] == lu;
    LowerAllAppend([[]], Split(u, d));
  }

  /**
   * Another character in front joins the first piece, and its lower-cased
   * form `lc` joins the lower-cased first piece.
   */
  lemma LowerSplitInPiece(c: char, lc: char, u: string, lu: string, d: char)
    requires lc == LowerChar(c) && c != d && lc != d
    requires Split(lu, d) == LowerAll(Split(u, d))
    ensures Split([lc] + lu, d) == LowerAll(Split([c] + u, d))
  {
    var rest := Split(u, d);
    var lrest := Split(lu, d);
    assert ([c] + u)[1..] == u && ([lc] + lu)[1..] == lu;
    var head := [c] + rest[0];
    assert Split([c] + u, d) == [head] + rest[1..];
    assert Split([lc] + lu, d) == [[lc] + lrest[0]] + lrest[1..];
    LowerAppend([c], rest[0]);
    assert Lower(head) == [lc] + lrest[0];
    assert LowerAll(rest[1..]) == lrest[1..];
    LowerAllAppend([head], rest[1..]);
  }

  // ---------------------------------------------------------------------
  // String order: `Array.prototype.sort()` with no comparator and `<` on
  // strings, compared by code point (JavaScript compares UTF-16 code units;
  // the two differ only above U+FFFF)

  predicate StrLt(a: string, b: string)
    decreases |a|
  {
    if a == [] then b != []
    else if b == [] then false
    else if a[0] == b[0] then StrLt(a[1..], b[1..])
    else a[0] < b[0]
  }

  /** Exactly one of `a < b`, `a == b`, `b < a` holds. */
  lemma {:induction false} StrLtTrichotomy(a: string, b: string)
    ensures a == b || StrLt(a, b) || StrLt(b, a)
    ensures !(StrLt(a, b) && StrLt(b, a))
    ensures !StrLt(a, a)
    decreases |a|
  {
    if a != [] && b != [] && a[0] == b[0] {
      StrLtTrichotomy(a[1..], b[1..]);
      assert a == [a[0]] + a[1..];
      assert b == [b[0]] + b[1..];
    }
    if a != [] {
      StrLtTrichotomy(a[1..], a[1..]);
    }
  }

  lemma {:induction false} StrLtTransitive(a: string, b: string, c: string)
    requires StrLt(a, b) && StrLt(b, c)
    ensures StrLt(a, c)
    decreases |a|
  {
    if a != [] && a[0] == b[0] && b[0] == c[0] {
      StrLtTransitive(a[1..], b[1..], c[1..]);
    }
  }

  lemma StrLtAsymmetric()
    ensures forall a: string, b: string :: !(StrLt(a, b) && StrLt(b, a))
  {
    forall a: string, b: string ensures !(StrLt(a, b) && StrLt(b, a)) {
      StrLtTrichotomy(a, b);
    }
  }

  /** Every non-empty finite set of strings has a least element. */
  lemma {:induction false} LeastExists(s: set<string>)
    requires s != {}
    ensures exists m :: IsLeast(m, s)
    decreases |s|
  {
    var x :| x in s;
    if s == {x} {
      assert IsLeast(x, s);
    } else {
      LeastExists(s - {x});
      var m :| IsLeast(m, s - {x});
      StrLtTrichotomy(x, m);
      if StrLt(x, m) {
        forall k | k in s && k != x ensures StrLt(x, k) {
          if k != m { StrLtTransitive(x, m, k); }
        }
        assert IsLeast(x, s);
      } else {
        assert IsLeast(m, s);
      }
    }
  }

  ghost predicate IsLeast(m: string, s: set<string>) {
    m in s && forall k | k in s && k != m :: StrLt(m, k)
  }

  function Least(s: set<string>): (m: string)
    requires s != {}
    ensures IsLeast(m, s)
  {
    LeastExists(s);
    StrLtAsymmetric();
    var m :| m in s && forall k | k in s && k != m :: StrLt(m, k);
    m
  }

  /** The elements of `s` in increasing code-point order: `[...s].sort()`. */
  function SortedKeys(s: set<string>): (r: seq<string>)
    ensures |r| == |s|
    ensures forall k :: k in s <==> k in r
    ensures forall i, j | 0 <= i < j < |r| :: StrLt(r[i], r[j])
    decreases |s|
  {
    if s == {} then []
    else
      var m := Least(s);
      var rest := SortedKeys(s - {m});
      [m] + rest
  }
}
