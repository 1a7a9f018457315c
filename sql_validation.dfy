/**
 * The SQL validator of services/sqlValidationService.js: strip comments,
 * collapse whitespace, enforce the size limits, split on `;`, and reject
 * any submission whose lower-cased text matches a blocked pattern.
 */
module SqlValidation {
  import opened JsStrings
  import opened Wrappers

  /** `MAX_SQL_LENGTH`, compared with `length`, which counts UTF-16 code units. */
  const MaxSqlLength := 10000
  const MaxStatements := 20

  /** What `validateSql` receives: a string, or a value of some other type. */
  datatype SqlInput = Text(sql: string) | NotText

  datatype ValidationError = InvalidInput | TooLarge | EmptyStatement | TooManyStatements | NotAllowed
  {
    /** The message of the `SqlValidationError` thrown. */
    function Message(): string {
      match this
      case InvalidInput => "Invalid SQL input"
      case TooLarge => "SQL input is too large"
      case EmptyStatement => "Empty SQL statement"
      case TooManyStatements => "Too many SQL statements"
      case NotAllowed => "This SQL command is not allowed in the execution environment"
    }
  }

  /** `{ statements }` on success, or the error thrown. */
  datatype Validation = Accepted(statements: seq<string>) | Rejected(error: ValidationError)

  // ---------------------------------------------------------------------
  // stripComments

  /** The rest of `s` from its first line terminator on (empty if there is none). */
  function FromLineEnd(s: string): (r: string)
    ensures |r| <= |s| && r == s[|s| - |r|..]
    ensures r == [] || IsLineTerminator(r[0])
    ensures forall i | 0 <= i < |s| - |r| :: !IsLineTerminator(s[i])
    decreases |s|
  {
    if s == [] || IsLineTerminator(s[0]) then s else FromLineEnd(s[1..])
  }

  /** `s.replace(/--.*$/gm, "")`: each `--` and the rest of its line go; the line terminator stays. */
  function StripLineComments(s: string): string
    decreases |s|
  {
    if |s| >= 2 && s[0] == '-' && s[1] == '-' then StripLineComments(FromLineEnd(s[2..]))
    else if s == [] then []
    else [s[0]] + StripLineComments(s[1..])
  }

  /** The first `*` `/` pair at or after `i`: where the lazy `[\s\S]*?\*\/` stops. */
  function BlockEnd(s: string, i: nat): (r: Option<nat>)
    ensures r.Some? ==> i <= r.value && r.value + 2 <= |s| && s[r.value] == '*' && s[r.value + 1] == '/'
    ensures r.Some? ==> forall k | i <= k < r.value :: !(s[k] == '*' && s[k + 1] == '/')
    ensures r.None? ==> forall k | i <= k < |s| - 1 :: !(s[k] == '*' && s[k + 1] == '/')
    decreases |s| - i
  {
    if i + 2 > |s| then None
    else if s[i] == '*' && s[i + 1] == '/' then Some(i)
    else BlockEnd(s, i + 1)
  }

  /** `s.replace(/\/\*[\s\S]*?\*\//g, "")`: each comment opener up to the first closer after it goes; an unclosed opener stays. */
  function StripBlockComments(s: string): string
    decreases |s|
  {
    if |s| >= 2 && s[0] == '/' && s[1] == '*' && BlockEnd(s, 2).Some? then
      StripBlockComments(s[BlockEnd(s, 2).value + 2..])
    else if s == [] then []
    else [s[0]] + StripBlockComments(s[1..])
  }

  /** `stripComments`: one pass for line comments, then one pass for block comments. */
  function StripComments(s: string): string {
    StripBlockComments(StripLineComments(s))
  }

  /** Stripping only removes text: the result is no longer, and as long only when nothing went. */
  lemma {:induction false} StripLineShrinks(s: string)
    ensures |StripLineComments(s)| <= |s|
    ensures |StripLineComments(s)| == |s| ==> StripLineComments(s) == s
    ensures |s| >= 2 && s[0] == '-' && s[1] == '-' ==> |StripLineComments(s)| < |s|
    decreases |s|
  {
    if |s| >= 2 && s[0] == '-' && s[1] == '-' {
      StripLineShrinks(FromLineEnd(s[2..]));
    } else if s != [] {
      StripLineShrinks(s[1..]);
    }
  }

  lemma {:induction false} StripBlockShrinks(s: string)
    ensures |StripBlockComments(s)| <= |s|
    ensures |StripBlockComments(s)| == |s| ==> StripBlockComments(s) == s
    ensures |s| >= 2 && s[0] == '/' && s[1] == '*' && BlockEnd(s, 2).Some? ==> |StripBlockComments(s)| < |s|
    decreases |s|
  {
    if |s| >= 2 && s[0] == '/' && s[1] == '*' && BlockEnd(s, 2).Some? {
      StripBlockShrinks(s[BlockEnd(s, 2).value + 2..]);
    } else if s != [] {
      StripBlockShrinks(s[1..]);
    }
  }

  lemma StripCommentsShrinks(s: string)
    ensures |StripComments(s)| <= |s|
    ensures |StripComments(s)| == |s| ==> StripLineComments(s) == s && StripBlockComments(s) == s
  {
    StripLineShrinks(s);
    StripBlockShrinks(StripLineComments(s));
  }

  predicate OpensAt(t: string, i: int) {
    0 <= i && i + 2 <= |t| && t[i] == '/' && t[i + 1] == '*'
  }

  predicate ClosesAt(t: string, j: int) {
    0 <= j && j + 2 <= |t| && t[j] == '*' && t[j + 1] == '/'
  }

  /** No `--`, and no closed block comment: no comment opener with a closer after it. */
  predicate NoComments(t: string) {
    && (forall i | 0 <= i < |t| - 1 :: !(t[i] == '-' && t[i + 1] == '-'))
    && (forall i, j | 0 <= i && i + 2 <= j && j + 2 <= |t| :: !(OpensAt(t, i) && ClosesAt(t, j)))
  }

  lemma {:induction false} LineFixpointHasNoDashes(s: string)
    requires StripLineComments(s) == s
    ensures forall i | 0 <= i < |s| - 1 :: !(s[i] == '-' && s[i + 1] == '-')
    decreases |s|
  {
    StripLineShrinks(s);
    if |s| >= 2 {
      assert StripLineComments(s) == [s[0]] + StripLineComments(s[1..]);
      assert StripLineComments(s[1..]) == s[1..];
      LineFixpointHasNoDashes(s[1..]);
      forall i | 1 <= i < |s| - 1 ensures !(s[i] == '-' && s[i + 1] == '-') {
        assert s[1..][i - 1] == s[i];
      }
    }
  }

  lemma {:induction false} BlockFixpointHasNoComment(s: string)
    requires StripBlockComments(s) == s
    ensures forall i, j | 0 <= i && i + 2 <= j && j + 2 <= |s| :: !(OpensAt(s, i) && ClosesAt(s, j))
    decreases |s|
  {
    StripBlockShrinks(s);
    if s != [] {
      assert StripBlockComments(s) == [s[0]] + StripBlockComments(s[1..]);
      assert StripBlockComments(s[1..]) == s[1..];
      BlockFixpointHasNoComment(s[1..]);
      forall i, j | 0 <= i && i + 2 <= j && j + 2 <= |s| ensures !(OpensAt(s, i) && ClosesAt(s, j)) {
        if 1 <= i {
          assert OpensAt(s, i) ==> OpensAt(s[1..], i - 1);
          assert ClosesAt(s, j) ==> ClosesAt(s[1..], j - 1);
        } else if OpensAt(s, i) {
          assert BlockEnd(s, 2).None?;
        }
      }
    }
  }

  /** The comment stripping `stripComments` evidently intends: repeat the two passes until nothing changes. */
  function StripCommentsFully(s: string): (r: string)
    ensures NoComments(r)
    decreases |s|
  {
    var once := StripComments(s);
    StripCommentsShrinks(s);
    if |once| == |s| then
      LineFixpointHasNoDashes(s);
      BlockFixpointHasNoComment(s);
      s
    else
      StripCommentsFully(once)
  }

  /** Text without `-` holds no line comment. */
  lemma {:induction false} NoDashLineFixpoint(s: string)
    requires '-' !in s
    ensures StripLineComments(s) == s
    decreases |s|
  {
    if s != [] {
      assert '-' !in s[1..] by {
        assert forall c | c in s[1..] :: c in s;
      }
      NoDashLineFixpoint(s[1..]);
      assert s == [s[0]] + s[1..];
    }
  }

  /** Text with no comment opener holds no block comment. */
  lemma {:induction false} NoOpenerBlockFixpoint(s: string)
    requires forall i | 0 <= i < |s| - 1 :: !(s[i] == '/' && s[i + 1] == '*')
    ensures StripBlockComments(s) == s
    decreases |s|
  {
    if s != [] {
      NoOpenerBlockFixpoint(s[1..]);
      assert s == [s[0]] + s[1..];
    }
  }

  /** A prefix without `/` passes through the block pass untouched. */
  lemma {:induction false} BlockPassPrefix(a: string, b: string)
    requires '/' !in a
    ensures StripBlockComments(a + b) == a + StripBlockComments(b)
    decreases |a|
  {
    if a == [] {
      assert a + b == b;
    } else {
      BlockPassHead(a, b);
      BlockPassPrefix(a[1..], b);
      assert a == [a[0]] + a[1..];
    }
  }

  /** The first character of a prefix without `/` is kept, and the rest has no `/` either. */
  lemma BlockPassHead(a: string, b: string)
    requires a != [] && '/' !in a
    ensures StripBlockComments(a + b) == [a[0]] + StripBlockComments(a[1..] + b)
    ensures '/' !in a[1..]
  {
    assert a[0] in a;
    assert (a + b)[0] == a[0] && (a + b)[1..] == a[1..] + b;
    BlockPassPlain(a + b);
    assert forall c | c in a[1..] :: c in a;
  }

  /** A first character other than `/` is kept by the block pass. */
  lemma BlockPassPlain(s: string)
    requires s != [] && s[0] != '/'
    ensures StripBlockComments(s) == [s[0]] + StripBlockComments(s[1..])
  {
  }

  // ---------------------------------------------------------------------
  // Whitespace, splitting, patterns

  /** `.replace(/\s+/g, " ").trim()`. */
  function Collapse(s: string): string {
    Trim(ReplaceSpaceRuns(s, ' '))
  }

  /** The trimmed pieces that are not empty, in order. */
  function NonEmptyTrimmed(pieces: seq<string>): seq<string>
    decreases |pieces|
  {
    if pieces == [] then []
    else
      var t := Trim(pieces[0]);
      (if t == [] then [] else [t]) + NonEmptyTrimmed(pieces[1..])
  }

  /** `splitStatements`: `s.split(";").map(trim).filter(Boolean)`. */
  function SplitStatements(s: string): seq<string> {
    NonEmptyTrimmed(Split(s, ';'))
  }

  /**
   * `BLOCKED_PATTERNS`, one word-bounded phrase each. They are matched against
   * collapsed text, where a run of `\s+` is exactly one space.
   */
  const BlockedPatterns: seq<string> := [
    "attach database",
    "detach database",
    "pragma",
    "create virtual table",
    "with recursive",
    "into outfile",
    "copy"
  ]

  /** `p` occurs in `t` at `i` with a word boundary (`\b`) on each side. */
  predicate MatchesAt(t: string, i: int, p: string) {
    && 0 <= i && i + |p| <= |t|
    && t[i..i + |p|] == p
    && (i == 0 || !IsWordChar(t[i - 1]))
    && (i + |p| == |t| || !IsWordChar(t[i + |p|]))
  }

  /** `/\bp\b/.test(t)`. */
  predicate Matches(t: string, p: string) {
    exists i | 0 <= i <= |t| - |p| :: MatchesAt(t, i, p)
  }

  /** Some blocked pattern matches `t`: the loop over `BLOCKED_PATTERNS`. */
  predicate Blocked(t: string) {
    exists p | p in BlockedPatterns :: Matches(t, p)
  }

  // ---------------------------------------------------------------------
  // validateSql

  /**
   * `validateSql`, with the comment-stripping step given as `strip`.
   * The checks run in the source's order: input type, raw length, empty
   * after stripping, statement count, blocked patterns.
   */
  function ValidateWith(strip: string -> string, input: SqlInput): Validation {
    match input
    case NotText => Rejected(InvalidInput)
    case Text(sql) =>
      if sql == [] then Rejected(InvalidInput)
      else if Utf16Length(sql) > MaxSqlLength then Rejected(TooLarge)
      else CheckStripped(Collapse(strip(sql)))
  }

  /** The checks on the stripped, collapsed text: empty, statement count, blocked patterns. */
  function CheckStripped(stripped: string): Validation {
    if stripped == [] then Rejected(EmptyStatement)
    else
      var statements := SplitStatements(stripped);
      if |statements| > MaxStatements then Rejected(TooManyStatements)
      else if Blocked(Lower(stripped)) then Rejected(NotAllowed)
      else Accepted(statements)
  }

  /** `validateSql` as written. */
  function ValidateSqlAsWritten(input: SqlInput): Validation {
    ValidateWith(StripComments, input)
  }

  /** `validateSql`, with comments stripped until none is left (see StripCommentsFully). */
  function ValidateSql(input: SqlInput): Validation {
    ValidateWith(StripCommentsFully, input)
  }

  // ---------------------------------------------------------------------
  // The single-pass stripper on two words around comments

  /** A non-empty run of word characters. */
  predicate IsWord(a: string) {
    a != [] && forall i | 0 <= i < |a| :: IsWordChar(a[i])
  }

  lemma WordMarks(a: string)
    requires IsWord(a)
    ensures '-' !in a && '/' !in a && a[0] != '*'
  {
  }

  /** Text without `/` holds no block comment. */
  lemma NoSlashBlockFixpoint(s: string)
    requires '/' !in s
    ensures StripBlockComments(s) == s
  {
    NoOpenerBlockFixpoint(s);
  }

  /** A `/` that opens no comment is kept by the block pass. */
  lemma BlockPassSlash(x: string)
    requires x != [] && x[0] != '*'
    ensures StripBlockComments("/" + x) == "/" + StripBlockComments(x)
  {
    assert ("/" + x)[1..] == x;
  }

  /**
   * `stripComments` deletes a comment without leaving a separator, so two
   * words around an empty block comment become one word (`WITHRECURSIVE`).
   * The statements returned are cut from this stripped text, so the
   * denylist and SQLite both see that one word. The corrected stripper does
   * the same.
   */
  lemma CommentJoinsWords(a: string, b: string)
    requires IsWord(a) && IsWord(b)
    ensures StripComments(a + "/**/" + b) == a + b
    ensures StripCommentsFully(a + "/**/" + b) == a + b
  {
    WordMarks(a);
    WordMarks(b);
    var c := "/**/" + b;
    assert a + "/**/" + b == a + c;
    assert '-' !in a + c;
    NoDashLineFixpoint(a + c);
    BlockPassPrefix(a, c);
    assert BlockEnd(c, 2) == Some(2);
    assert c[4..] == b;
    NoSlashBlockFixpoint(b);
    assert StripComments(a + c) == a + b;
    assert '-' !in a + b && '/' !in a + b;
    NoDashLineFixpoint(a + b);
    NoSlashBlockFixpoint(a + b);
    assert StripComments(a + b) == a + b;
  }

  /**
   * A comment the single pass creates survives it: a space, a slash and an
   * empty block comment before a lone star and a closer leave a block
   * comment standing between two words, which hides their separating
   * space from the denylist (no blocked phrase matches), though SQLite
   * reads the two words. The corrected stripper removes the leftover
   * comment as well.
   */
  lemma CommentSmuggling(a: string, b: string)
    requires IsWord(a) && IsWord(b)
    ensures StripComments(a + " //**/* */" + b) == a + " /* */" + b
    ensures StripCommentsFully(a + " //**/* */" + b) == a + " " + b
  {
    SmuggleFirstPass(a, b);
    SmuggleSecondPass(a, b);
    var v := a + " " + b;
    WordMarks(a);
    WordMarks(b);
    assert '-' !in v && '/' !in v;
    NoDashLineFixpoint(v);
    NoSlashBlockFixpoint(v);
  }

  lemma SmuggleFirstPass(a: string, b: string)
    requires IsWord(a) && IsWord(b)
    ensures StripComments(a + " //**/* */" + b) == a + " /* */" + b
  {
    WordMarks(a);
    WordMarks(b);
    var s := a + " //**/* */" + b;
    assert '-' !in s;
    NoDashLineFixpoint(s);
    SmuggleBlockPass(a, b);
  }

  lemma SmuggleBlockPass(a: string, b: string)
    requires IsWord(a) && IsWord(b)
    ensures StripBlockComments(a + " //**/* */" + b) == a + " /* */" + b
  {
    WordMarks(a);
    var tail := "/**/* */" + b;
    SmuggleShape(a, b);
    BlockPassPrefix(a + " ", "/" + tail);
    BlockPassSlash(tail);
    SmuggleTail(b);
  }

  lemma SmuggleShape(a: string, b: string)
    ensures a + " //**/* */" + b == (a + " ") + ("/" + ("/**/* */" + b))
    ensures (a + " ") + ("/" + ("* */" + b)) == a + " /* */" + b
  {
  }

  lemma SmuggleTail(b: string)
    requires IsWord(b)
    ensures StripBlockComments("/**/* */" + b) == "* */" + b
  {
    WordMarks(b);
    var tail := "/**/* */" + b;
    assert BlockEnd(tail, 2) == Some(2);
    assert tail[4..] == "* *" + ("/" + b);
    BlockPassPrefix("* *", "/" + b);
    BlockPassSlash(b);
    NoSlashBlockFixpoint(b);
  }

  lemma SmuggleSecondPass(a: string, b: string)
    requires IsWord(a) && IsWord(b)
    ensures StripComments(a + " /* */" + b) == a + " " + b
  {
    WordMarks(a);
    WordMarks(b);
    var w := a + " /* */" + b;
    assert '-' !in w;
    NoDashLineFixpoint(w);
    SmuggleSecondBlockPass(a, b);
  }

  lemma SmuggleSecondBlockPass(a: string, b: string)
    requires IsWord(a) && IsWord(b)
    ensures StripBlockComments(a + " /* */" + b) == a + " " + b
  {
    WordMarks(a);
    var rest := "/* */" + b;
    assert a + " /* */" + b == (a + " ") + rest;
    BlockPassPrefix(a + " ", rest);
    EmptyCommentGoes(b);
  }

  lemma EmptyCommentGoes(b: string)
    requires IsWord(b)
    ensures StripBlockComments("/* */" + b) == b
  {
    WordMarks(b);
    var rest := "/* */" + b;
    assert BlockEnd(rest, 2) == Some(3);
    assert rest[5..] == b;
    NoSlashBlockFixpoint(b);
  }

  /** Collapsed text without `;` is one statement: itself. */
  lemma OneStatement(t: string)
    requires t != [] && ';' !in t
    requires !IsSpace(t[0]) && !IsSpace(t[|t| - 1])
    requires forall i | 0 <= i < |t| && IsSpace(t[i]) :: t[i] == ' '
    requires forall i | 0 <= i < |t| - 1 && IsSpace(t[i]) :: !IsSpace(t[i + 1])
    ensures Collapse(t) == t && SplitStatements(t) == [t]
  {
    ReplaceSpaceRunsSingle(t, ' ');
    TrimUnspaced(t);
    SplitWithoutSeparator(t, ';');
    assert [t][1..] == [];
    assert NonEmptyTrimmed([t]) == [t] + NonEmptyTrimmed([]);
  }

  /** Two words and the space between them are one collapsed statement. */
  lemma TwoWordsStatement(a: string, b: string)
    requires IsWord(a) && IsWord(b)
    ensures Collapse(a + " " + b) == a + " " + b
    ensures SplitStatements(a + " " + b) == [a + " " + b]
  {
    var t := a + " " + b;
    forall i | 0 <= i < |t| && i != |a| ensures IsWordChar(t[i]) {
      if i < |a| { assert t[i] == a[i]; } else { assert t[i] == b[i - |a| - 1]; }
    }
    forall i | 0 <= i < |t| ensures !IsSpace(t[i]) || i == |a| {
      if i != |a| { SpaceNotWord(t[i]); }
    }
    assert ';' !in t by {
      forall i | 0 <= i < |t| ensures t[i] != ';' {
        if i != |a| { assert IsWordChar(t[i]); }
      }
    }
    OneStatement(t);
  }

  /** A run of word characters is one collapsed statement. */
  lemma WordStatement(a: string)
    requires IsWord(a)
    ensures Collapse(a) == a && SplitStatements(a) == [a]
  {
    forall i | 0 <= i < |a| ensures !IsSpace(a[i]) { SpaceNotWord(a[i]); }
    assert ';' !in a by {
      forall i | 0 <= i < |a| ensures a[i] != ';' { assert IsWordChar(a[i]); }
    }
    OneStatement(a);
  }

  /**
   * The corrected stripper catches the smuggled `WITH RECURSIVE`: after the
   * leftover comment goes, the collapsed text is the blocked phrase itself.
   */
  lemma SmuggledCaught(a: string, b: string)
    requires IsWord(a) && IsWord(b) && Lower(a) == "with" && Lower(b) == "recursive"
    ensures ValidateSql(Text(a + " //**/* */" + b)) == Rejected(NotAllowed)
  {
    var s := a + " //**/* */" + b;
    var v := a + " " + b;
    CommentSmuggling(a, b);
    TwoWordsStatement(a, b);
    PhraseLower(a, " ", b);
    WithRecursiveBlocked(Lower(v));
    SmuggledShort(a, b);
    OneBlockedStatement(s, v);
  }

  lemma SmuggledShort(a: string, b: string)
    requires Lower(a) == "with" && Lower(b) == "recursive"
    ensures 0 < |a + " //**/* */" + b| <= MaxSqlLength / 2
  {
    assert |Lower(a)| == |a| && |Lower(b)| == |b|;
  }

  lemma OneBlockedStatement(s: string, v: string)
    requires 0 < |s| <= MaxSqlLength / 2 && StripCommentsFully(s) == v
    requires Collapse(v) == v && SplitStatements(v) == [v] && Blocked(Lower(v))
    ensures ValidateSql(Text(s)) == Rejected(NotAllowed)
  {
    ShortFits(s);
    CheckedAs(StripCommentsFully, s);
    BlockedStatement(v);
  }

  lemma ShortFits(s: string)
    requires |s| <= MaxSqlLength / 2
    ensures Utf16Length(s) <= MaxSqlLength
  {
  }

  /** Within the size limit, the verdict is that of the checks on the stripped, collapsed text. */
  lemma CheckedAs(strip: string -> string, s: string)
    requires 0 < |s| && Utf16Length(s) <= MaxSqlLength
    ensures ValidateWith(strip, Text(s)) == CheckStripped(Collapse(strip(s)))
  {
  }


  lemma BlockedStatement(v: string)
    requires SplitStatements(v) == [v] && Blocked(Lower(v))
    ensures CheckStripped(v) == Rejected(NotAllowed)
  {
  }

  lemma WithRecursiveBlocked(t: string)
    requires t == "with recursive"
    ensures Blocked(t)
  {
    var p := BlockedPatterns[4];
    assert p == "with recursive" && p in BlockedPatterns;
    assert t[0..|p|] == p;
    assert MatchesAt(t, 0, p);
    assert Matches(t, p);
  }

  /**
   * Both strippers accept `WITH` and `RECURSIVE` joined by an empty block
   * comment, as the single statement `WITHRECURSIVE`.
   */
  lemma JoinedAccepted(a: string, b: string)
    requires IsWord(a) && IsWord(b) && Lower(a) == "with" && Lower(b) == "recursive"
    ensures ValidateSqlAsWritten(Text(a + "/**/" + b)) == Accepted([a + b])
    ensures ValidateSql(Text(a + "/**/" + b)) == Accepted([a + b])
  {
    var s := a + "/**/" + b;
    CommentJoinsWords(a, b);
    JoinedClean(a, b);
    JoinedShort(a, b);
    CleanAccepted(StripComments, s);
    CleanAccepted(StripCommentsFully, s);
  }

  /** `WITHRECURSIVE` is one statement that no pattern blocks. */
  lemma JoinedClean(a: string, b: string)
    requires IsWord(a) && IsWord(b) && Lower(a) == "with" && Lower(b) == "recursive"
    ensures Collapse(a + b) == a + b && SplitStatements(a + b) == [a + b]
    ensures !Blocked(Lower(a + b))
  {
    WordsJoin(a, b);
    WordStatement(a + b);
    PhraseLower(a, "", b);
    assert a + "" + b == a + b;
    JoinedNotBlocked(Lower(a + b));
  }

  lemma WordsJoin(a: string, b: string)
    requires IsWord(a) && IsWord(b)
    ensures IsWord(a + b)
  {
    forall i | 0 <= i < |a + b| ensures IsWordChar((a + b)[i]) {
      if i < |a| { assert (a + b)[i] == a[i]; } else { assert (a + b)[i] == b[i - |a|]; }
    }
  }

  lemma JoinedShort(a: string, b: string)
    requires Lower(a) == "with" && Lower(b) == "recursive"
    ensures 0 < |a + "/**/" + b| && Utf16Length(a + "/**/" + b) <= MaxSqlLength
  {
    assert |Lower(a)| == |a| && |Lower(b)| == |b|;
    ShortFits(a + "/**/" + b);
  }

  /**
   * The validator as written accepts the smuggled `WITH RECURSIVE`: its one
   * statement still holds the leftover comment, which SQLite skips.
   */
  lemma SmuggledAccepted(a: string, b: string)
    requires IsWord(a) && IsWord(b) && Lower(a) == "with" && Lower(b) == "recursive"
    ensures ValidateSqlAsWritten(Text(a + " //**/* */" + b)) == Accepted([a + " /* */" + b])
  {
    var s := a + " //**/* */" + b;
    var w := a + " /* */" + b;
    SmuggleFirstPass(a, b);
    SmuggledStatement(a, b);
    PhraseLower(a, " /* */", b);
    SmuggledNotBlocked(Lower(w));
    assert |s| == 23;
    OneCleanStatement(s, w);
  }

  /** `with` and `recursive` in any case, around a separator without letters, lower-case to the phrase. */
  lemma PhraseLower(a: string, sep: string, b: string)
    requires Lower(a) == "with" && Lower(b) == "recursive" && (sep == "" || sep == " " || sep == " /* */")
    ensures sep == "" ==> Lower(a + sep + b) == "withrecursive"
    ensures sep == " " ==> Lower(a + sep + b) == "with recursive"
    ensures sep == " /* */" ==> Lower(a + sep + b) == "with /* */recursive"
  {
    LowerAppend(a + sep, b);
    LowerAppend(a, sep);
  }

  lemma OneCleanStatement(s: string, w: string)
    requires 0 < |s| <= MaxSqlLength / 2 && StripComments(s) == w
    requires Collapse(w) == w && SplitStatements(w) == [w] && !Blocked(Lower(w))
    ensures ValidateSqlAsWritten(Text(s)) == Accepted([w])
  {
    ShortFits(s);
    CheckedAs(StripComments, s);
    CleanStatement(w);
  }

  lemma CleanStatement(v: string)
    requires SplitStatements(v) == [v] && !Blocked(Lower(v))
    ensures CheckStripped(v) == Accepted([v])
  {
  }

  /** The text the single pass leaves is one collapsed statement. */
  lemma SmuggledStatement(a: string, b: string)
    requires IsWord(a) && IsWord(b)
    ensures Collapse(a + " /* */" + b) == a + " /* */" + b
    ensures SplitStatements(a + " /* */" + b) == [a + " /* */" + b]
  {
    var t := a + " /* */" + b;
    var n := |a|;
    forall i | 0 <= i < |t| && i != n && i != n + 3 ensures !IsSpace(t[i]) {
      if i < n { SpaceNotWord(a[i]); assert t[i] == a[i]; }
      else if i < n + 6 { }
      else { SpaceNotWord(b[i - n - 6]); assert t[i] == b[i - n - 6]; }
    }
    assert ';' !in t by {
      forall i | 0 <= i < |t| ensures t[i] != ';' {
        if i < n { assert t[i] == a[i]; }
        else if i >= n + 6 { assert t[i] == b[i - n - 6]; }
      }
    }
    OneStatement(t);
  }

  /** With the leftover comment between them, `with` and `recursive` are no blocked phrase. */
  lemma SmuggledNotBlocked(t: string)
    requires t == "with /* */recursive"
    ensures !Blocked(t)
  {
    forall p | p in BlockedPatterns ensures !Matches(t, p) {
      if p == "with recursive" {
        NotWithRecursive(t);
      } else if p == "into outfile" {
        NotIntoOutfile(t);
      } else if p == "copy" {
        NotCopy(t);
      } else if p != "create virtual table" {
        AbsentLead(t, p);
      }
    }
  }

  lemma NotWithRecursive(t: string)
    requires t == "with /* */recursive"
    ensures !Matches(t, "with recursive")
  {
    var p := "with recursive";
    forall i | 0 <= i <= |t| - |p| ensures !MatchesAt(t, i, p) {
      if i == 0 { Mismatch(t, p, i, 5); } else { Mismatch(t, p, i, 0); }
    }
  }

  lemma NotIntoOutfile(t: string)
    requires t == "with /* */recursive"
    ensures !Matches(t, "into outfile")
  {
    var p := "into outfile";
    forall i | 0 <= i <= |t| - |p| ensures !MatchesAt(t, i, p) {
      if i == 1 { Mismatch(t, p, i, 1); } else { Mismatch(t, p, i, 0); }
    }
  }

  lemma NotCopy(t: string)
    requires t == "with /* */recursive"
    ensures !Matches(t, "copy")
  {
    var p := "copy";
    forall i | 0 <= i <= |t| - |p| ensures !MatchesAt(t, i, p) {
      if i == 12 { Mismatch(t, p, i, 1); } else { Mismatch(t, p, i, 0); }
    }
  }

  /** `p` does not occur at `i` when one of its characters differs there. */
  lemma Mismatch(t: string, p: string, i: int, k: int)
    requires 0 <= i && i + |p| <= |t| && 0 <= k < |p| && t[i + k] != p[k]
    ensures !MatchesAt(t, i, p)
  {
    assert t[i..i + |p|][k] == t[i + k];
  }

  /** A pattern whose first character does not occur in `t` does not match it. */
  lemma AbsentLead(t: string, p: string)
    requires p != [] && p[0] !in t
    ensures !Matches(t, p)
  {
    forall i | 0 <= i <= |t| - |p| ensures !MatchesAt(t, i, p) {
      assert t[i..i + |p|][0] == t[i];
    }
  }

  /** `withrecursive` is no blocked phrase. */
  lemma JoinedNotBlocked(t: string)
    requires t == "withrecursive"
    ensures !Blocked(t)
  {
    forall p | p in BlockedPatterns ensures !Matches(t, p) {
      if p == "into outfile" {
        JoinedNotIntoOutfile(t);
      } else if p == "copy" {
        JoinedNotCopy(t);
      } else if p == "pragma" || p == "attach database" || p == "detach database" {
        AbsentLead(t, p);
      }
    }
  }

  lemma JoinedNotIntoOutfile(t: string)
    requires t == "withrecursive"
    ensures !Matches(t, "into outfile")
  {
    var p := "into outfile";
    forall i | 0 <= i <= |t| - |p| ensures !MatchesAt(t, i, p) {
      if i == 1 { Mismatch(t, p, i, 1); } else { Mismatch(t, p, i, 0); }
    }
  }

  lemma JoinedNotCopy(t: string)
    requires t == "withrecursive"
    ensures !Matches(t, "copy")
  {
    var p := "copy";
    forall i | 0 <= i <= |t| - |p| ensures !MatchesAt(t, i, p) {
      if i == 6 { Mismatch(t, p, i, 1); } else { Mismatch(t, p, i, 0); }
    }
  }


  // ---------------------------------------------------------------------
  // The order of the checks

  /** A non-string value and the empty string are rejected first. */
  lemma InvalidInputRejected(strip: string -> string, input: SqlInput)
    requires input == NotText || input == Text([])
    ensures ValidateWith(strip, input) == Rejected(InvalidInput)
  {
  }

  /** Over 10,000 UTF-16 code units of raw text is too large, whatever the text holds. */
  lemma OversizedRejected(strip: string -> string, sql: string)
    requires Utf16Length(sql) > MaxSqlLength
    ensures ValidateWith(strip, Text(sql)) == Rejected(TooLarge)
  {
  }

  /**
   * `length` counts a character above U+FFFF twice, so 5,001 of them are
   * already too large; text within the Basic Multilingual Plane is limited
   * to 10,000 characters.
   */
  lemma AstralTextCountsTwice(strip: string -> string, sql: string)
    requires forall i | 0 <= i < |sql| :: sql[i] as int > 0xFFFF
    requires 2 * |sql| > MaxSqlLength
    ensures ValidateWith(strip, Text(sql)) == Rejected(TooLarge)
  {
    Utf16LengthAstral(sql);
  }

  lemma BmpTextCountsOnce(strip: string -> string, sql: string)
    requires forall i | 0 <= i < |sql| :: sql[i] as int <= 0xFFFF
    ensures ValidateWith(strip, Text(sql)) == Rejected(TooLarge) <==> |sql| > MaxSqlLength
  {
    Utf16LengthBmp(sql);
  }

  /** Collapsed text is empty exactly when the text was only whitespace. */
  lemma CollapseEmpty(s: string)
    ensures Collapse(s) == [] <==> AllSpace(s)
  {
  }

  lemma CheckStrippedEmpty(t: string)
    ensures CheckStripped(t) == Rejected(EmptyStatement) <==> t == []
  {
  }

  /** Text that is nothing but comments and whitespace is rejected as empty, and nothing else is. */
  lemma CommentOnlyRejected(strip: string -> string, sql: string)
    requires 0 < |sql| && Utf16Length(sql) <= MaxSqlLength
    ensures ValidateWith(strip, Text(sql)) == Rejected(EmptyStatement) <==> AllSpace(strip(sql))
  {
    assert ValidateWith(strip, Text(sql)) == CheckStripped(Collapse(strip(sql)));
    CheckStrippedEmpty(Collapse(strip(sql)));
    CollapseEmpty(strip(sql));
  }

  /** More than 20 statements is rejected, before and whatever the blocked patterns say. */
  lemma TooManyRejected(strip: string -> string, sql: string)
    requires 0 < |sql| && Utf16Length(sql) <= MaxSqlLength
    requires Collapse(strip(sql)) != []
    requires |SplitStatements(Collapse(strip(sql)))| > MaxStatements
    ensures ValidateWith(strip, Text(sql)) == Rejected(TooManyStatements)
  {
  }

  /** A blocked pattern anywhere in the lower-cased text rejects the whole submission. */
  lemma BlockedRejected(strip: string -> string, sql: string)
    requires 0 < |sql| && Utf16Length(sql) <= MaxSqlLength
    requires Collapse(strip(sql)) != []
    requires |SplitStatements(Collapse(strip(sql)))| <= MaxStatements
    requires Blocked(Lower(Collapse(strip(sql))))
    ensures ValidateWith(strip, Text(sql)) == Rejected(NotAllowed)
  {
  }

  /** Text that passes every check is accepted, with its statements. */
  lemma CleanAccepted(strip: string -> string, sql: string)
    requires 0 < |sql| && Utf16Length(sql) <= MaxSqlLength
    requires Collapse(strip(sql)) != []
    requires |SplitStatements(Collapse(strip(sql)))| <= MaxStatements
    requires !Blocked(Lower(Collapse(strip(sql))))
    ensures ValidateWith(strip, Text(sql)) == Accepted(SplitStatements(Collapse(strip(sql))))
  {
  }

  /** Each rejection has the cause its message names, and the first two are exact. */
  lemma RejectionCauses(strip: string -> string, input: SqlInput)
    ensures ValidateWith(strip, input) == Rejected(InvalidInput) <==> input == NotText || input == Text([])
    ensures ValidateWith(strip, input) == Rejected(TooLarge) <==>
              input.Text? && input.sql != [] && Utf16Length(input.sql) > MaxSqlLength
    ensures input.Text? && ValidateWith(strip, input) == Rejected(TooManyStatements) ==>
              |SplitStatements(Collapse(strip(input.sql)))| > MaxStatements
    ensures input.Text? && ValidateWith(strip, input) == Rejected(NotAllowed) ==>
              && |SplitStatements(Collapse(strip(input.sql)))| <= MaxStatements
              && Blocked(Lower(Collapse(strip(input.sql))))
  {
  }

  /** A submission of nothing but separators passes with no statement at all. */
  lemma SeparatorsOnlyAccepted()
    ensures ValidateWith(StripComments, Text(";")) == Accepted([])
    ensures ValidateWith(StripCommentsFully, Text(";")) == Accepted([])
  {
    assert StripLineComments(";") == ";";
    assert StripBlockComments(";") == ";";
    assert StripComments(";") == ";";
    SeparatorOnlyVerdict(StripComments);
    assert StripCommentsFully(";") == ";";
    SeparatorOnlyVerdict(StripCommentsFully);
  }

  lemma SeparatorOnlyVerdict(strip: string -> string)
    requires strip(";") == ";"
    ensures ValidateWith(strip, Text(";")) == Accepted([])
  {
    SeparatorOnlyCollapsed();
    assert Lower(";") == ";";
    ShortTextNotBlocked(";");
  }

  lemma SeparatorOnlyCollapsed()
    ensures Collapse(";") == ";"
    ensures SplitStatements(";") == []
  {
    assert ReplaceSpaceRuns(";", ' ') == ";";
    TrimUnspaced(";");
    assert Split(";", ';') == [[], []];
  }

  /** Every blocked pattern is at least four characters long, so shorter text matches none. */
  lemma ShortTextNotBlocked(t: string)
    requires |t| < 4
    ensures !Blocked(t)
  {
    assert forall p | p in BlockedPatterns :: |p| >= 4;
  }

  // ---------------------------------------------------------------------
  // Where the returned statements come from

  /** `p` sits in `s` at offset `a`, with `d` or an end of `s` on each side. */
  ghost predicate PieceAt(s: string, d: char, a: int, p: string) {
    && 0 <= a && a + |p| <= |s|
    && s[a..a + |p|] == p
    && (a == 0 || s[a - 1] == d)
    && (a + |p| == |s| || s[a + |p|] == d)
  }

  lemma {:induction false} SplitPieceAt(s: string, d: char, j: nat)
    requires j < |Split(s, d)|
    ensures exists a :: PieceAt(s, d, a, Split(s, d)[j]) && (j == 0 <==> a == 0)
    decreases |s|
  {
    if s == [] {
      assert PieceAt(s, d, 0, []);
    } else {
      var rest := Split(s[1..], d);
      if s[0] == d {
        if j == 0 {
          assert PieceAt(s, d, 0, []);
        } else {
          SplitPieceAt(s[1..], d, j - 1);
          var a :| PieceAt(s[1..], d, a, rest[j - 1]);
          assert Split(s, d)[j] == rest[j - 1];
          PieceShift(s, d, a, rest[j - 1]);
        }
      } else if j == 0 {
        SplitPieceAt(s[1..], d, 0);
        var p := rest[0];
        var a :| PieceAt(s[1..], d, a, p) && a == 0;
        assert Split(s, d)[0] == [s[0]] + p;
        assert s[..1 + |p|] == [s[0]] + p;
        assert 1 + |p| < |s| ==> s[1 + |p|] == s[1..][|p|];
        assert PieceAt(s, d, 0, [s[0]] + p);
      } else {
        SplitPieceAt(s[1..], d, j);
        var a :| PieceAt(s[1..], d, a, rest[j]) && a != 0;
        assert Split(s, d)[j] == rest[j];
        PieceShift(s, d, a, rest[j]);
      }
    }
  }

  lemma {:induction false} PieceShift(s: string, d: char, a: int, q: string)
    requires s != [] && PieceAt(s[1..], d, a, q)
    requires a == 0 ==> s[0] == d
    ensures PieceAt(s, d, a + 1, q)
  {
    assert s[a + 1..a + 1 + |q|] == s[1..][a..a + |q|];
    if 0 < a {
      assert s[a] == s[1..][a - 1];
    }
    if a + 1 + |q| < |s| {
      assert s[a + 1 + |q|] == s[1..][a + |q|];
    }
  }

  /** `st` sits in `t` at offset `a` with a non-word character or an end of `t` on each side. */
  ghost predicate FencedAt(t: string, a: int, st: string) {
    && 0 <= a && a + |st| <= |t|
    && t[a..a + |st|] == st
    && (a == 0 || !IsWordChar(t[a - 1]))
    && (a + |st| == |t| || !IsWordChar(t[a + |st|]))
  }

  lemma {:induction false} NonEmptyTrimmedFrom(pieces: seq<string>, k: nat)
    requires k < |NonEmptyTrimmed(pieces)|
    ensures exists j :: 0 <= j < |pieces| && NonEmptyTrimmed(pieces)[k] == Trim(pieces[j])
    decreases |pieces|
  {
    var t := Trim(pieces[0]);
    var rest := NonEmptyTrimmed(pieces[1..]);
    if t != [] && k == 0 {
      assert NonEmptyTrimmed(pieces)[0] == Trim(pieces[0]);
    } else {
      var k' := if t == [] then k else k - 1;
      assert NonEmptyTrimmed(pieces)[k] == rest[k'];
      NonEmptyTrimmedFrom(pieces[1..], k');
      var j :| 0 <= j < |pieces[1..]| && rest[k'] == Trim(pieces[1..][j]);
      assert pieces[1..][j] == pieces[j + 1];
    }
  }

  lemma {:induction false} NonEmptyTrimmedNonEmpty(pieces: seq<string>)
    ensures forall st | st in NonEmptyTrimmed(pieces) :: st != []
    decreases |pieces|
  {
    if pieces != [] {
      NonEmptyTrimmedNonEmpty(pieces[1..]);
    }
  }

  lemma {:induction false} SliceOfSlice(t: string, a: int, p: string, l: int, st: string)
    requires 0 <= a && a + |p| <= |t| && t[a..a + |p|] == p
    requires 0 <= l && l + |st| <= |p| && p[l..l + |st|] == st
    ensures t[a + l..a + l + |st|] == st
    ensures forall i | 0 <= i < |p| :: t[a + i] == p[i]
  {
    forall i | 0 <= i < |p| ensures t[a + i] == p[i] {
      assert t[a..a + |p|][i] == p[i];
    }
    forall i | 0 <= i < |st| ensures t[a + l + i] == st[i] {
      assert p[l..l + |st|][i] == st[i];
    }
  }

  /** Trimming a piece keeps it fenced: what surrounds it is space, a separator or an end. */
  lemma {:induction false} TrimFenced(t: string, a: int, p: string)
    requires PieceAt(t, ';', a, p) && Trim(p) != []
    ensures FencedAt(t, a + LeadingSpaces(p), Trim(p))
  {
    FenceFromTrim(t, a, p, LeadingSpaces(p), Trim(p));
  }

  lemma {:induction false} FenceFromTrim(t: string, a: int, p: string, l: int, st: string)
    requires PieceAt(t, ';', a, p) && TrimmedAt(p, l, st)
    ensures FencedAt(t, a + l, st)
  {
    SliceOfSlice(t, a, p, l, st);
    FencedLeft(t, a, p, l, st);
    FencedRight(t, a, p, l, st);
  }

  lemma {:induction false} FencedLeft(t: string, a: int, p: string, l: int, st: string)
    requires PieceAt(t, ';', a, p) && TrimmedAt(p, l, st)
    ensures 0 < a + l ==> !IsWordChar(t[a + l - 1])
  {
    if 0 < a + l {
      if l == 0 {
        assert t[a - 1] == ';';
      } else {
        assert t[a..a + |p|][l - 1] == p[l - 1];
        assert IsSpace(p[l - 1]);
        SpaceNotWord(p[l - 1]);
      }
    }
  }

  lemma {:induction false} FencedRight(t: string, a: int, p: string, l: int, st: string)
    requires PieceAt(t, ';', a, p) && TrimmedAt(p, l, st)
    ensures a + l + |st| < |t| ==> !IsWordChar(t[a + l + |st|])
  {
    var e := l + |st|;
    if a + e < |t| {
      if e == |p| {
        assert t[a + e] == ';';
      } else {
        assert t[a..a + |p|][e] == p[e];
        assert IsSpace(p[e]);
        SpaceNotWord(p[e]);
      }
    }
  }

  /** Every statement is cut out of the text between separators or spaces. */
  lemma {:induction false} StatementFenced(t: string, k: nat)
    requires k < |SplitStatements(t)|
    ensures exists a :: FencedAt(t, a, SplitStatements(t)[k])
  {
    var pieces := Split(t, ';');
    var st := SplitStatements(t)[k];
    NonEmptyTrimmedFrom(pieces, k);
    var j :| 0 <= j < |pieces| && st == Trim(pieces[j]);
    SplitPieceAt(t, ';', j);
    var a :| PieceAt(t, ';', a, pieces[j]);
    NonEmptyTrimmedNonEmpty(pieces);
    assert st in SplitStatements(t);
    TrimFenced(t, a, pieces[j]);
  }

  /** A match inside a fenced slice is a match in the whole text. */
  lemma {:induction false} MatchLifts(t: string, a: int, st: string, p: string)
    requires FencedAt(t, a, st)
    ensures Matches(st, p) ==> Matches(t, p)
  {
    if Matches(st, p) {
      var i :| 0 <= i <= |st| - |p| && MatchesAt(st, i, p);
      forall m | 0 <= m < |p| ensures t[a + i + m] == p[m] {
        assert t[a + i + m] == st[i + m];
      }
      assert t[a + i..a + i + |p|] == p;
      if 0 < i {
        assert t[a + i - 1] == st[i - 1];
      }
      if i + |p| < |st| {
        assert t[a + i + |p|] == st[i + |p|];
      }
      assert MatchesAt(t, a + i, p);
    }
  }

  lemma {:induction false} FencedLower(t: string, a: int, st: string)
    requires FencedAt(t, a, st)
    ensures FencedAt(Lower(t), a, Lower(st))
  {
    LowerSlice(t, a, a + |st|);
    if 0 < a {
      LowerCharKeepsClasses(t[a - 1]);
    }
    if a + |st| < |t| {
      LowerCharKeepsClasses(t[a + |st|]);
    }
  }

  /** A statement as `validateSql` returns it. */
  predicate WellFormedStatement(st: string) {
    && st != []
    && ';' !in st
    && !IsSpace(st[0]) && !IsSpace(st[|st| - 1])
    && SingleSpaced(st)
  }

  /** Collapsed text holds only single spaces. */
  predicate SingleSpaced(t: string) {
    && (forall i | 0 <= i < |t| && IsSpace(t[i]) :: t[i] == ' ')
    && (forall i | 0 <= i < |t| - 1 && IsSpace(t[i]) :: !IsSpace(t[i + 1]))
  }

  lemma {:induction false} CollapseSingleSpaced(s: string)
    ensures SingleSpaced(Collapse(s))
  {
    var r := ReplaceSpaceRuns(s, ' ');
    var l := LeadingSpaces(r);
    var t := Collapse(s);
    assert TrimmedAt(r, l, t);
    forall i | 0 <= i < |t| ensures t[i] == r[l + i] { }
  }

  lemma {:induction false} StatementWellFormed(t: string, k: nat)
    requires SingleSpaced(t)
    requires k < |SplitStatements(t)|
    ensures WellFormedStatement(SplitStatements(t)[k])
  {
    var pieces := Split(t, ';');
    var st := SplitStatements(t)[k];
    NonEmptyTrimmedFrom(pieces, k);
    var j :| 0 <= j < |pieces| && st == Trim(pieces[j]);
    NonEmptyTrimmedNonEmpty(pieces);
    assert st in SplitStatements(t);
    assert ';' !in pieces[j];
    TrimKeepsAbsent(pieces[j], ';');
    StatementFenced(t, k);
    var a :| FencedAt(t, a, st);
    SingleSpacedSlice(t, a, st);
  }

  lemma {:induction false} TrimKeepsAbsent(p: string, c: char)
    requires c !in p
    ensures c !in Trim(p)
  {
    var st, l := Trim(p), LeadingSpaces(p);
    assert TrimmedAt(p, l, st);
    forall i | 0 <= i < |st| ensures st[i] != c {
      assert st[i] == p[l + i];
    }
  }

  lemma {:induction false} SingleSpacedSlice(t: string, a: int, st: string)
    requires SingleSpaced(t) && FencedAt(t, a, st)
    ensures SingleSpaced(st)
  {
    forall i | 0 <= i < |st| ensures st[i] == t[a + i] {
      assert t[a..a + |st|][i] == st[i];
    }
  }

  /**
   * What `validateSql` returns: the trimmed, non-empty `;`-pieces of the
   * stripped, collapsed text, in order, at most twenty, each well formed,
   * and none of them matching a blocked pattern on its own.
   */
  lemma {:induction false} AcceptedStatements(strip: string -> string, sql: string)
    requires ValidateWith(strip, Text(sql)).Accepted?
    ensures var statements := ValidateWith(strip, Text(sql)).statements;
      && statements == SplitStatements(Collapse(strip(sql)))
      && |statements| <= MaxStatements
      && !Blocked(Lower(Collapse(strip(sql))))
      && forall k | 0 <= k < |statements| :: WellFormedStatement(statements[k]) && !Blocked(Lower(statements[k]))
  {
    var t := Collapse(strip(sql));
    var statements := SplitStatements(t);
    CheckedAs(strip, sql);
    CollapseSingleSpaced(strip(sql));
    forall k | 0 <= k < |statements|
      ensures WellFormedStatement(statements[k]) && !Blocked(Lower(statements[k]))
    {
      StatementWellFormed(t, k);
      StatementUnblocked(t, k);
    }
  }

  /** A statement of text that matches no blocked pattern matches none either. */
  lemma StatementUnblocked(t: string, k: nat)
    requires k < |SplitStatements(t)| && !Blocked(Lower(t))
    ensures !Blocked(Lower(SplitStatements(t)[k]))
  {
    var st := SplitStatements(t)[k];
    StatementFenced(t, k);
    var a :| FencedAt(t, a, st);
    FencedLower(t, a, st);
    forall p | p in BlockedPatterns ensures !Matches(Lower(st), p) {
      MatchLifts(Lower(t), a, Lower(st), p);
    }
  }

  // ---------------------------------------------------------------------
  // Case

  /** The verdict on lower-cased input: the same error, or the statements lower-cased. */
  function LowerVerdict(v: Validation): Validation {
    match v
    case Accepted(statements) => Accepted(LowerAll(statements))
    case Rejected(e) => Rejected(e)
  }

  lemma {:induction false} LowerFromLineEnd(s: string)
    ensures FromLineEnd(Lower(s)) == Lower(FromLineEnd(s))
    decreases |s|
  {
    if s != [] {
      var t := Lower(s);
      assert t[0] == LowerChar(s[0]);
      assert IsLineTerminator(t[0]) == IsLineTerminator(s[0]);
      if !IsLineTerminator(s[0]) {
        LowerSuffix(s, 1);
        LowerFromLineEnd(s[1..]);
        assert FromLineEnd(t) == FromLineEnd(t[1..]);
        assert FromLineEnd(s) == FromLineEnd(s[1..]);
      } else {
        assert FromLineEnd(t) == t;
        assert FromLineEnd(s) == s;
      }
    } else {
      assert Lower(s) == [];
    }
  }

  lemma {:induction false} LowerStripLineComments(s: string)
    ensures StripLineComments(Lower(s)) == Lower(StripLineComments(s))
    decreases |s|
  {
    var t := Lower(s);
    if |s| >= 2 && s[0] == '-' && s[1] == '-' {
      LowerSuffix(s, 2);
      LowerFromLineEnd(s[2..]);
      LowerStripLineComments(FromLineEnd(s[2..]));
    } else if s != [] {
      assert !(|t| >= 2 && t[0] == '-' && t[1] == '-');
      LowerSuffix(s, 1);
      LowerStripLineComments(s[1..]);
      LowerAppend([s[0]], StripLineComments(s[1..]));
      assert Lower([s[0]]) == [t[0]];
    }
  }

  lemma {:induction false} LowerBlockEnd(s: string, i: nat)
    ensures BlockEnd(Lower(s), i) == BlockEnd(s, i)
    decreases |s| - i
  {
    if i + 2 <= |s| {
      LowerBlockEnd(s, i + 1);
    }
  }

  lemma {:induction false} LowerStripBlockComments(s: string)
    ensures StripBlockComments(Lower(s)) == Lower(StripBlockComments(s))
    decreases |s|
  {
    var t := Lower(s);
    LowerBlockEnd(s, 2);
    if |s| >= 2 && s[0] == '/' && s[1] == '*' && BlockEnd(s, 2).Some? {
      var e := BlockEnd(s, 2).value;
      LowerSuffix(s, e + 2);
      LowerStripBlockComments(s[e + 2..]);
    } else if s != [] {
      assert !(|t| >= 2 && t[0] == '/' && t[1] == '*' && BlockEnd(t, 2).Some?);
      LowerSuffix(s, 1);
      LowerStripBlockComments(s[1..]);
      LowerAppend([s[0]], StripBlockComments(s[1..]));
      assert Lower([s[0]]) == [t[0]];
    }
  }

  lemma {:induction false} LowerStripComments(s: string)
    ensures StripComments(Lower(s)) == Lower(StripComments(s))
  {
    LowerStripLineComments(s);
    LowerStripBlockComments(StripLineComments(s));
  }

  lemma {:induction false} LowerStripCommentsFully(s: string)
    ensures StripCommentsFully(Lower(s)) == Lower(StripCommentsFully(s))
    decreases |s|
  {
    LowerStripComments(s);
    StripCommentsShrinks(s);
    if |StripComments(s)| < |s| {
      LowerStripCommentsFully(StripComments(s));
    }
  }

  lemma {:induction false} LowerCollapse(s: string)
    ensures Collapse(Lower(s)) == Lower(Collapse(s))
  {
    LowerReplaceSpaceRuns(s, ' ');
    LowerTrim(ReplaceSpaceRuns(s, ' '));
  }

  lemma {:induction false} LowerNonEmptyTrimmed(pieces: seq<string>)
    ensures NonEmptyTrimmed(LowerAll(pieces)) == LowerAll(NonEmptyTrimmed(pieces))
    decreases |pieces|
  {
    if pieces != [] {
      var lp := LowerAll(pieces);
      var t := Trim(pieces[0]);
      var head := if t == [] then [] else [t];
      var rest := NonEmptyTrimmed(pieces[1..]);
      assert lp[0] == Lower(pieces[0]);
      assert lp[1..] == LowerAll(pieces[1..]);
      LowerTrim(pieces[0]);
      assert Trim(lp[0]) == Lower(t);
      assert (if Lower(t) == [] then [] else [Lower(t)]) == LowerAll(head);
      LowerNonEmptyTrimmed(pieces[1..]);
      assert NonEmptyTrimmed(lp) == LowerAll(head) + LowerAll(rest);
      LowerAllAppend(head, rest);
    }
  }

  lemma {:induction false} LowerSplitStatements(t: string)
    ensures SplitStatements(Lower(t)) == LowerAll(SplitStatements(t))
  {
    LowerSplit(t, ';');
    LowerNonEmptyTrimmed(Split(t, ';'));
  }

  /**
   * Lower-casing a submission changes nothing but the case of what is
   * returned: it is rejected with the same error, or accepted with the
   * same statements lower-cased. The blocked patterns ignore case.
   */
  lemma {:induction false} CaseInsensitive(strip: string -> string, sql: string)
    requires strip(Lower(sql)) == Lower(strip(sql))
    ensures ValidateWith(strip, Text(Lower(sql))) == LowerVerdict(ValidateWith(strip, Text(sql)))
  {
    LowerUtf16Length(sql);
    LowerCollapse(strip(sql));
    LowerCheckStripped(Collapse(strip(sql)));
  }

  lemma {:induction false} LowerCheckStripped(t: string)
    ensures CheckStripped(Lower(t)) == LowerVerdict(CheckStripped(t))
  {
    LowerSplitStatements(t);
    LowerIdempotent(t);
  }

  lemma {:induction false} ValidateSqlCaseInsensitive(sql: string)
    ensures ValidateSql(Text(Lower(sql))) == LowerVerdict(ValidateSql(Text(sql)))
    ensures ValidateSqlAsWritten(Text(Lower(sql))) == LowerVerdict(ValidateSqlAsWritten(Text(sql)))
  {
    LowerStripCommentsFully(sql);
    CaseInsensitive(StripCommentsFully, sql);
    LowerStripComments(sql);
    CaseInsensitive(StripComments, sql);
  }
}
