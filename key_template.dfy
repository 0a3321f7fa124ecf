/**
 * Cache-key templates: `BuildkiteCacheCommand#evaluate_cache_key`.
 *
 * A template is scanned left to right for the shortest `{{…}}` match of the
 * regular expression /{{(.+?)}}/ (a non-empty interior without line feeds).
 * Each interior is stripped and resolved as `.Branch`, `.Revision` or
 * `checksum <file>`; everything else is copied through unchanged.
 */
module KeyTemplate {
  import opened Wrappers

  /** What a template can refer to. `branch` and `commit` are the
      BUILDKITE_BRANCH and BUILDKITE_COMMIT variables (None when unset);
      `checksum` maps the text after `checksum ` to the standard output of
      the `cat … | shasum` pipeline, or to None when that pipeline exits
      with a non-zero status. */
  datatype Env = Env(branch: Option<string>, commit: Option<string>, checksum: string -> Option<string>)

  datatype KeyError =
    | BranchUnset                       // `.Branch` while BUILDKITE_BRANCH is unset (nil has no gsub)
    | ChecksumFailed                    // "Checksum failed"
    | UnknownCommand(contents: string)  // "Unknown templating command …"

  /** The characters String#split (with no argument) separates fields on. */
  predicate IsSplitSpace(c: char) {
    c == ' ' || c == '\t' || c == '\n' || c == '\U{B}' || c == '\U{C}' || c == '\r'
  }

  /** The characters String#strip removes: NUL and the split characters. */
  predicate IsStripSpace(c: char) {
    c == '\0' || IsSplitSpace(c)
  }

  predicate AllStripSpace(s: string) {
    forall i :: 0 <= i < |s| ==> IsStripSpace(s[i])
  }

  // ---------------------------------------------------------------------
  // String#strip

  function StripLeft(s: string): (r: string)
    ensures |r| <= |s| && r == s[|s| - |r|..]
    ensures forall i :: 0 <= i < |s| - |r| ==> IsStripSpace(s[i])
    ensures r == [] || !IsStripSpace(r[0])
  {
    if s != [] && IsStripSpace(s[0]) then StripLeft(s[1..]) else s
  }

  function StripRight(s: string): (r: string)
    ensures |r| <= |s| && r == s[..|r|]
    ensures forall i :: |r| <= i < |s| ==> IsStripSpace(s[i])
    ensures r == [] || !IsStripSpace(r[|r| - 1])
  {
    if s != [] && IsStripSpace(s[|s| - 1]) then StripRight(s[..|s| - 1]) else s
  }

  function Strip(s: string): (r: string)
    ensures r == [] || (!IsStripSpace(r[0]) && !IsStripSpace(r[|r| - 1]))
  {
    StripRight(StripLeft(s))
  }

  lemma {:induction false} StripLeftPadded(pre: string, t: string)
    requires AllStripSpace(pre)
    requires t != [] && !IsStripSpace(t[0])
    ensures StripLeft(pre + t) == t
    decreases |pre|
  {
    if pre != [] {
      var s := pre + t;
      assert s[0] == pre[0] && s[1..] == pre[1..] + t;
      StripLeftPadded(pre[1..], t);
      assert StripLeft(s) == StripLeft(s[1..]);
    } else {
      assert pre + t == t;
    }
  }

  lemma {:induction false} StripRightPadded(t: string, post: string)
    requires AllStripSpace(post)
    requires t != [] && !IsStripSpace(t[|t| - 1])
    ensures StripRight(t + post) == t
    decreases |post|
  {
    if post != [] {
      var s := t + post;
      assert s[..|s| - 1] == t + post[..|post| - 1];
      StripRightPadded(t, post[..|post| - 1]);
    } else {
      assert t + post == t;
    }
  }

  /** Whitespace around a directive is ignored: strip(pre + x + post) == x. */
  lemma StripPadded(pre: string, x: string, post: string)
    requires AllStripSpace(pre) && AllStripSpace(post)
    requires x != [] && !IsStripSpace(x[0]) && !IsStripSpace(x[|x| - 1])
    ensures Strip(pre + x + post) == x
  {
    assert pre + x + post == pre + (x + post);
    StripLeftPadded(pre, x + post);
    StripRightPadded(x, post);
  }

  // ---------------------------------------------------------------------
  // String#split (awk mode) and the first field of the checksum output

  /** Length of the run of non-space characters that starts s. */
  function TokenLength(s: string): (n: nat)
    ensures n <= |s|
    ensures forall i :: 0 <= i < n ==> !IsSplitSpace(s[i])
    ensures n < |s| ==> IsSplitSpace(s[n])
  {
    if s == [] || IsSplitSpace(s[0]) then 0 else 1 + TokenLength(s[1..])
  }

  /** The maximal runs of non-space characters of s, in order. */
  function Fields(s: string): (r: seq<string>)
    ensures forall f | f in r :: f != [] && forall i :: 0 <= i < |f| ==> !IsSplitSpace(f[i])
    decreases |s|
  {
    if s == [] then []
    else if IsSplitSpace(s[0]) then Fields(s[1..])
    else
      var n := TokenLength(s);
      [s[..n]] + Fields(s[n..])
  }

  lemma {:induction false} FieldsEmpty(s: string)
    ensures Fields(s) == [] <==> forall i :: 0 <= i < |s| ==> IsSplitSpace(s[i])
    decreases |s|
  {
    if s != [] && IsSplitSpace(s[0]) {
      FieldsEmpty(s[1..]);
      assert forall i :: 1 <= i < |s| ==> s[i] == s[1..][i - 1];
    }
  }

  /** f is the first maximal run of non-space characters of s, and it
      starts at k: only space characters come before it, and the end of s
      or a space character comes after it. */
  predicate FirstRunAt(s: string, k: nat, f: string) {
    && f != [] && k + |f| <= |s|
    && (forall i :: 0 <= i < k ==> IsSplitSpace(s[i]))
    && s[k..k + |f|] == f
    && (forall i :: 0 <= i < |f| ==> !IsSplitSpace(f[i]))
    && (k + |f| == |s| || IsSplitSpace(s[k + |f|]))
  }

  /** A leading space character moves the first run one place on. */
  lemma FirstRunAfterSpace(s: string, k: nat, f: string)
    requires s != [] && IsSplitSpace(s[0]) && FirstRunAt(s[1..], k, f)
    ensures FirstRunAt(s, k + 1, f) && s[k + 1 + |f|..] == s[1..][k + |f|..]
  {
    assert s[k + 1..k + 1 + |f|] == s[1..][k..k + |f|];
    assert forall i :: 1 <= i < k + 1 ==> s[i] == s[1..][i - 1];
  }

  /** The first field of s is the maximal run starting at k, and the
      other fields are those of the text after it. */
  predicate FrontSplitAt(s: string, k: nat) {
    && Fields(s) != [] && FirstRunAt(s, k, Fields(s)[0])
    && Fields(s)[1..] == Fields(s[k + |Fields(s)[0]|..])
  }

  /** Fields(s) takes the first maximal run and then the fields of what
      follows it; with FieldsEmpty this pins Fields down completely. */
  lemma {:induction false} FieldsFront(s: string)
    ensures Fields(s) != [] ==> exists k: nat :: FrontSplitAt(s, k)
    decreases |s|
  {
    if s == [] {
    } else if IsSplitSpace(s[0]) {
      var fs := Fields(s[1..]);
      assert Fields(s) == fs;
      FieldsFront(s[1..]);
      if fs != [] {
        var k': nat :| FrontSplitAt(s[1..], k');
        assert FrontSplitAt(s, k' + 1) by {
          FirstRunAfterSpace(s, k', fs[0]);
        }
      }
    } else {
      FieldsFrontToken(s);
      assert FrontSplitAt(s, 0);
    }
  }

  /** A text that starts with a non-space character starts with its first
      field. */
  lemma FieldsFrontToken(s: string)
    requires s != [] && !IsSplitSpace(s[0])
    ensures Fields(s) != [] && FirstRunAt(s, 0, Fields(s)[0])
    ensures Fields(s)[1..] == Fields(s[|Fields(s)[0]|..])
  {
    var n := TokenLength(s);
    assert Fields(s) == [s[..n]] + Fields(s[n..]);
    assert s[0..n] == s[..n];
  }

  /** `out.split.first`, with nil rendered as "" by gsub. */
  function FirstField(out: string): (r: string)
    ensures forall i :: 0 <= i < |r| ==> !IsSplitSpace(r[i])
    ensures r == [] <==> forall i :: 0 <= i < |out| ==> IsSplitSpace(out[i])
    ensures r != [] ==> exists k: nat :: FirstRunAt(out, k, r)
  {
    FieldsEmpty(out);
    FieldsFront(out);
    var fields := Fields(out);
    if fields == [] then "" else fields[0]
  }

  // ---------------------------------------------------------------------
  // Directives

  /** `contents.split.first == "checksum" && contents.split.length > 1` */
  predicate IsChecksumCommand(contents: string) {
    var fields := Fields(contents);
    |fields| > 1 && fields[0] == "checksum"
  }

  /** The same condition, character by character: "checksum", one space
      character, then a further non-space character somewhere. */
  predicate NamesChecksumFile(c: string) {
    && |c| > 9
    && c[..8] == "checksum"
    && IsSplitSpace(c[8])
    && exists i :: 9 <= i < |c| && !IsSplitSpace(c[i])
  }

  /** On stripped contents the split-based test and the character-level
      shape coincide; in particular `contents[9..]` is the text after
      "checksum" and one separating character. */
  lemma ChecksumCommandShape(c: string)
    requires c == [] || !IsSplitSpace(c[0])
    ensures IsChecksumCommand(c) <==> NamesChecksumFile(c)
  {
    if IsChecksumCommand(c) {
      ChecksumCommandNamesFile(c);
    }
    if NamesChecksumFile(c) {
      NamedFileIsChecksumCommand(c);
    }
  }

  lemma ChecksumCommandNamesFile(c: string)
    requires c == [] || !IsSplitSpace(c[0])
    requires IsChecksumCommand(c)
    ensures NamesChecksumFile(c)
  {
    var n := TokenLength(c);
    assert Fields(c) == [c[..n]] + Fields(c[n..]);
    assert c[..n] == "checksum";
    assert n == 8;
    assert Fields(c[8..]) != [];
    assert |c| > 8;
    assert IsSplitSpace(c[8]);
    assert c[8..][1..] == c[9..];
    assert Fields(c[8..]) == Fields(c[9..]);
    FieldsEmpty(c[9..]);
    var k :| 0 <= k < |c[9..]| && !IsSplitSpace(c[9..][k]);
    assert !IsSplitSpace(c[9 + k]);
  }

  lemma NamedFileIsChecksumCommand(c: string)
    requires NamesChecksumFile(c)
    ensures IsChecksumCommand(c)
  {
    assert forall i :: 0 <= i < 8 ==> c[i] == "checksum"[i];
    var n := TokenLength(c);
    assert n == 8;
    assert Fields(c) == [c[..n]] + Fields(c[n..]);
    assert c[8..][1..] == c[9..];
    assert Fields(c[8..]) == Fields(c[9..]);
    var k :| 9 <= k < |c| && !IsSplitSpace(c[k]);
    assert !IsSplitSpace(c[9..][k - 9]);
    FieldsEmpty(c[9..]);
  }

  /** `$1.gsub('/', '_')` for the branch name. */
  function ReplaceSlashes(s: string): (r: string)
    ensures |r| == |s|
    ensures forall i :: 0 <= i < |s| ==> r[i] == if s[i] == '/' then '_' else s[i]
  {
    if s == [] then [] else [if s[0] == '/' then '_' else s[0]] + ReplaceSlashes(s[1..])
  }

  /** The three directives a placeholder may hold, and everything else. */
  datatype Directive =
    | BranchName
    | Revision
    | Checksum(file: string)
    | Unknown(contents: string)

  /** Classifies the stripped interior of a placeholder. The checksum test is
      the source's split-based one in the form ChecksumCommandShape gives it,
      and `file` is `contents[9..]`. */
  function Parse(inner: string): (r: Directive)
    ensures r.Checksum? <==>
      Strip(inner) != ".Branch" && Strip(inner) != ".Revision" && IsChecksumCommand(Strip(inner))
    ensures r.Unknown? ==> r.contents == Strip(inner)
  {
    var contents := Strip(inner);
    ChecksumCommandShape(contents);
    if contents == ".Branch" then BranchName
    else if contents == ".Revision" then Revision
    else if NamesChecksumFile(contents) then Checksum(contents[9..])
    else Unknown(contents)
  }

  /** The block given to gsub: the value of one placeholder interior. */
  function Resolve(inner: string, env: Env): Result<string, KeyError>
  {
    match Parse(inner)
    case BranchName =>
      if env.branch.None? then Err(BranchUnset) else Ok(ReplaceSlashes(env.branch.value))
    case Revision =>
      Ok(env.commit.GetOr(""))
    case Checksum(file) =>
      (match env.checksum(file)
       case None => Err(ChecksumFailed)
       case Some(out) => Ok(FirstField(out)))
    case Unknown(contents) =>
      Err(UnknownCommand(contents))
  }

  /** What a placeholder gives: it raises exactly for an unset branch, a
      failing checksum or an unknown command; a branch value has no '/' and
      the branch's length, a revision is the commit or "", and a checksum
      value has no whitespace. */
  lemma ResolveOutcome(inner: string, env: Env)
    ensures var r := Resolve(inner, env);
      r.Err? <==>
        || (Parse(inner) == BranchName && env.branch.None?)
        || (Parse(inner).Checksum? && env.checksum(Parse(inner).file).None?)
        || Parse(inner).Unknown?
    ensures var r := Resolve(inner, env);
      Parse(inner) == BranchName && r.Ok? ==> '/' !in r.value && |r.value| == |env.branch.value|
    ensures Parse(inner) == Revision ==> Resolve(inner, env) == Ok(env.commit.GetOr(""))
    ensures var r := Resolve(inner, env);
      Parse(inner).Checksum? && r.Ok? ==> forall i :: 0 <= i < |r.value| ==> !IsSplitSpace(r.value[i])
  {
  }

  // ---------------------------------------------------------------------
  // Scanning for /{{(.+?)}}/

  predicate ClosesAt(s: string, k: int) {
    0 <= k && k + 1 < |s| && s[k] == '}' && s[k + 1] == '}'
  }

  /** The first index at or after `from` where "}}" occurs. */
  function FindClose(s: string, from: nat): (r: Option<nat>)
    ensures r.Some? ==> from <= r.value && ClosesAt(s, r.value)
    ensures forall k :: from <= k && (r.None? || k < r.value) ==> !ClosesAt(s, k)
    decreases |s| - from
  {
    if from + 2 > |s| then None
    else if ClosesAt(s, from) then Some(from)
    else FindClose(s, from + 1)
  }

  /** Where the regular expression matches at the very start of s: the index
      of its closing "}}". The lazy `.+?` takes the first "}}" that leaves a
      non-empty interior, and `.` refuses a line feed. */
  function PlaceholderEnd(s: string): (r: Option<nat>)
    ensures r.Some? ==> 3 <= r.value && ClosesAt(s, r.value) && s[0] == '{' && s[1] == '{'
    ensures r.Some? ==> '\n' !in s[2..r.value]
    ensures r.Some? ==> forall k :: 3 <= k < r.value ==> !ClosesAt(s, k)
    ensures r.None? && |s| >= 2 && s[0] == '{' && s[1] == '{' ==>
      forall j :: 3 <= j && ClosesAt(s, j) ==> '\n' in s[2..j]
  {
    if |s| < 2 || s[0] != '{' || s[1] != '{' then None
    else
      match FindClose(s, 3)
      case None => None
      case Some(j) =>
        if '\n' in s[2..j] then
          assert forall k :: j <= k <= |s| ==> s[2..j] <= s[2..k];
          None
        else Some(j)
  }

  predicate HasPlaceholder(s: string) {
    exists i :: 0 <= i < |s| && PlaceholderEnd(s[i..]).Some?
  }

  /** A template as gsub sees it: literal characters and matched interiors. */
  datatype Piece = Lit(c: char) | Hole(inner: string)

  function Scan(s: string): (r: seq<Piece>)
    ensures forall p | p in r && p.Hole? :: p.inner != [] && '\n' !in p.inner
    decreases |s|
  {
    if s == [] then []
    else
      match PlaceholderEnd(s)
      case Some(j) => [Hole(s[2..j])] + Scan(s[j + 2..])
      case None => [Lit(s[0])] + Scan(s[1..])
  }

  /** A piece written back as template text. */
  function PieceText(p: Piece): string {
    match p
    case Lit(c) => [c]
    case Hole(x) => "{{" + x + "}}"
  }

  /** Writes the pieces back as template text. */
  function Render(pieces: seq<Piece>): string {
    if pieces == [] then []
    else PieceText(pieces[0]) + Render(pieces[1..])
  }

  lemma RenderCons(p: Piece, pieces: seq<Piece>)
    ensures Render([p] + pieces) == PieceText(p) + Render(pieces)
  {
    assert ([p] + pieces)[0] == p && ([p] + pieces)[1..] == pieces;
  }

  /** Scanning loses nothing: the pieces spell the template again. */
  lemma {:induction false} ScanRender(s: string)
    ensures Render(Scan(s)) == s
    decreases |s|
  {
    if s != [] {
      var m := ScanRenderStep(s);
      ScanRender(s[m..]);
    }
  }

  /** The first piece spells the first m characters of the text, and the
      rest of the scan is the scan of what follows them. */
  lemma ScanRenderStep(s: string) returns (m: nat)
    requires s != []
    ensures 0 < m <= |s| && Render(Scan(s)) == s[..m] + Render(Scan(s[m..]))
    ensures s[..m] + s[m..] == s
  {
    m := match PlaceholderEnd(s) case Some(j) => j + 2 case None => 1;
    var r := Scan(s);
    ScanFirstPiece(s, m);
    assert Render(r) == PieceText(r[0]) + Render(r[1..]);
    assert s[..m] + s[m..] == s;
  }

  /** Piece p is what gsub sees at the position right after the text before:
      a literal character where the pattern does not match, or the interior
      of the match that starts there. */
  predicate PieceAt(s: string, before: string, p: Piece) {
    && |before| < |s| && s[..|before|] == before
    && match p
       case Lit(c) => s[|before|] == c && PlaceholderEnd(s[|before|..]).None?
       case Hole(x) =>
         && PlaceholderEnd(s[|before|..]) == Some(|x| + 2)
         && s[|before|..][2..|x| + 2] == x
  }

  /** A piece found in the text after a prefix is found at the same place
      in the whole text. */
  lemma PieceAtShift(s: string, m: nat, before: string, p: Piece)
    requires m <= |s| && PieceAt(s[m..], before, p)
    ensures PieceAt(s, s[..m] + before, p)
  {
    var rest := s[m..];
    assert s[m + |before|..] == rest[|before|..];
    assert s[..m + |before|] == s[..m] + rest[..|before|];
  }

  /** A placeholder written back is the text it was matched in. */
  lemma HoleText(s: string, j: nat)
    requires 2 <= j && j + 1 < |s|
    requires s[0] == '{' && s[1] == '{' && s[j] == '}' && s[j + 1] == '}'
    ensures "{{" + s[2..j] + "}}" == s[..j + 2]
  {
    assert s[..j + 2] == [s[0], s[1]] + s[2..j] + [s[j], s[j + 1]];
  }

  /** The suffix that is left after the first piece, and what the first
      piece is. */
  lemma ScanFirstPiece(s: string, m: nat)
    requires s != []
    requires m == match PlaceholderEnd(s) case Some(j) => j + 2 case None => 1
    ensures m <= |s| && |Scan(s)| == 1 + |Scan(s[m..])| && Scan(s)[1..] == Scan(s[m..])
    ensures PieceText(Scan(s)[0]) == s[..m]
  {
    var rest := Scan(s[m..]);
    match PlaceholderEnd(s)
    case Some(j) =>
      assert Scan(s) == [Hole(s[2..j])] + rest;
      HoleText(s, j);
    case None =>
      assert Scan(s) == [Lit(s[0])] + rest;
      assert s[..1] == [s[0]];
  }

  /** The first piece of the scan is the piece at the start of the text. */
  lemma ScanFirstPieceAt(s: string)
    requires s != []
    ensures PieceAt(s, [], Scan(s)[0])
  {
    assert s[0..] == s;
  }

  /** Piece i > 0 of the scan is piece i - 1 of the scan of what follows
      the first piece, found at the same place. */
  lemma ScanLaterPiece(s: string, m: nat, i: nat)
    requires s != []
    requires m == match PlaceholderEnd(s) case Some(j) => j + 2 case None => 1
    requires 1 <= i < |Scan(s)|
    requires PieceAt(s[m..], Render(Scan(s[m..])[..i - 1]), Scan(s[m..])[i - 1])
    ensures PieceAt(s, Render(Scan(s)[..i]), Scan(s)[i])
  {
    var r, tail := Scan(s), Scan(s[m..])[..i - 1];
    assert r[i] == Scan(s[m..])[i - 1] by {
      ScanFirstPiece(s, m);
      assert r[1..][i - 1] == r[i];
    }
    assert Render(r[..i]) == s[..m] + Render(tail) by {
      ScanFirstPiece(s, m);
      assert r[..i][0] == r[0] && r[..i][1..] == tail;
    }
    PieceAtShift(s, m, Render(tail), Scan(s[m..])[i - 1]);
  }

  /** Scanning follows gsub left to right: every piece is the match that
      starts at its position, or a character where no match starts. */
  lemma {:induction false} ScanPiecesAreMatches(s: string)
    ensures forall i :: 0 <= i < |Scan(s)| ==> PieceAt(s, Render(Scan(s)[..i]), Scan(s)[i])
    decreases |s|
  {
    if s != [] {
      var m := match PlaceholderEnd(s) case Some(j) => j + 2 case None => 1;
      ScanFirstPiece(s, m);
      ScanPiecesAreMatches(s[m..]);
      forall i | 0 <= i < |Scan(s)|
        ensures PieceAt(s, Render(Scan(s)[..i]), Scan(s)[i])
      {
        if i == 0 {
          ScanFirstPieceAt(s);
          assert Scan(s)[..0] == [];
        } else {
          ScanLaterPiece(s, m, i);
        }
      }
    }
  }

  /** Two values in order: the first error raised wins, otherwise the
      texts are joined. */
  function Concat(a: Result<string, KeyError>, b: Result<string, KeyError>): (r: Result<string, KeyError>)
    ensures r.Ok? <==> a.Ok? && b.Ok?
    ensures r.Ok? ==> r.value == a.value + b.value
    ensures a.Err? ==> r == a
    ensures a.Ok? && b.Err? ==> r == b
  {
    match a
    case Err(e) => Err(e)
    case Ok(u) =>
      match b
      case Err(e) => Err(e)
      case Ok(v) => Ok(u + v)
  }

  /** The value gsub puts in place of one piece. */
  function PieceValue(p: Piece, env: Env): Result<string, KeyError> {
    match p
    case Lit(c) => Ok([c])
    case Hole(x) => Resolve(x, env)
  }

  /** Piece i is the first whose value is an error, and that error is e. */
  predicate FirstFailure(pieces: seq<Piece>, env: Env, i: int, e: KeyError) {
    && 0 <= i < |pieces|
    && (forall k :: 0 <= k < i ==> PieceValue(pieces[k], env).Ok?)
    && PieceValue(pieces[i], env) == Err(e)
  }

  /** Every placeholder among the pieces resolves. */
  predicate HolesResolve(pieces: seq<Piece>, env: Env) {
    forall i :: 0 <= i < |pieces| && pieces[i].Hole? ==> Resolve(pieces[i].inner, env).Ok?
  }

  /** gsub with the block: every piece in order, the first raise wins. */
  function Substitute(pieces: seq<Piece>, env: Env): Result<string, KeyError> {
    if pieces == [] then Ok([])
    else Concat(PieceValue(pieces[0], env), Substitute(pieces[1..], env))
  }

  /** The block values join without error iff every piece has a value;
      otherwise the error is that of the first piece that raises. */
  lemma {:induction false} SubstituteOutcome(pieces: seq<Piece>, env: Env)
    ensures Substitute(pieces, env).Ok? <==> forall i :: 0 <= i < |pieces| ==> PieceValue(pieces[i], env).Ok?
    ensures Substitute(pieces, env).Err? ==> exists i :: FirstFailure(pieces, env, i, Substitute(pieces, env).error)
    decreases |pieces|
  {
    if pieces != [] {
      var head, rest := PieceValue(pieces[0], env), Substitute(pieces[1..], env);
      SubstituteOutcome(pieces[1..], env);
      assert forall i :: 1 <= i < |pieces| ==> pieces[i] == pieces[1..][i - 1];
      if head.Err? {
        assert FirstFailure(pieces, env, 0, head.error);
      } else if rest.Err? {
        var i :| FirstFailure(pieces[1..], env, i, rest.error);
        assert FirstFailure(pieces, env, i + 1, rest.error);
      }
    }
  }

  /** Literal characters never raise: only the placeholders decide. */
  lemma SubstituteHoles(pieces: seq<Piece>, env: Env)
    ensures Substitute(pieces, env).Ok? <==> HolesResolve(pieces, env)
    ensures Substitute(pieces, env).Err? ==>
      exists i :: FirstFailure(pieces, env, i, Substitute(pieces, env).error) && pieces[i].Hole?
  {
    SubstituteOutcome(pieces, env);
    assert forall i :: 0 <= i < |pieces| && pieces[i].Lit? ==> PieceValue(pieces[i], env).Ok?;
  }

  /** evaluate_cache_key: it succeeds iff every placeholder resolves, and
      otherwise raises the error of the first placeholder that fails. */
  function Expand(template: string, env: Env): (r: Result<string, KeyError>)
    ensures r.Ok? <==> HolesResolve(Scan(template), env)
    ensures r.Err? ==> exists i :: FirstFailure(Scan(template), env, i, r.error) && Scan(template)[i].Hole?
  {
    SubstituteHoles(Scan(template), env);
    Substitute(Scan(template), env)
  }

  // ---------------------------------------------------------------------
  // Properties of Expand

  /** A template without any placeholder is returned unchanged. */
  lemma {:induction false} ExpandWithoutPlaceholders(s: string, env: Env)
    requires !HasPlaceholder(s)
    ensures Expand(s, env) == Ok(s)
    decreases |s|
  {
    if s != [] {
      assert s[0..] == s;
      assert PlaceholderEnd(s).None?;
      forall i | 0 <= i < |s[1..]|
        ensures PlaceholderEnd(s[1..][i..]).None?
      {
        assert s[1..][i..] == s[i + 1..];
      }
      ExpandWithoutPlaceholders(s[1..], env);
      var ps := [Lit(s[0])] + Scan(s[1..]);
      assert ps[1..] == Scan(s[1..]);
      assert s == [s[0]] + s[1..];
    }
  }

  /** No placeholder starts inside lit, even when something follows it. */
  predicate NoOpening(lit: string) {
    forall i :: 0 <= i < |lit| && lit[i] == '{' ==> i + 1 < |lit| && lit[i + 1] != '{'
  }

  lemma SubstituteCons(p: Piece, pieces: seq<Piece>, env: Env)
    ensures Substitute([p] + pieces, env) == Concat(PieceValue(p, env), Substitute(pieces, env))
  {
    assert ([p] + pieces)[0] == p && ([p] + pieces)[1..] == pieces;
  }

  /** A character where no placeholder starts is copied as it is. */
  lemma ExpandFirstLiteral(s: string, env: Env)
    requires s != [] && PlaceholderEnd(s).None?
    ensures Expand(s, env) == Concat(Ok([s[0]]), Expand(s[1..], env))
  {
    assert Scan(s) == [Lit(s[0])] + Scan(s[1..]);
    SubstituteCons(Lit(s[0]), Scan(s[1..]), env);
  }

  lemma NoOpeningTail(lit: string)
    requires NoOpening(lit) && lit != []
    ensures NoOpening(lit[1..])
  {
    forall i | 0 <= i < |lit[1..]| && lit[1..][i] == '{'
      ensures i + 1 < |lit[1..]| && lit[1..][i + 1] != '{'
    {
      assert lit[i + 1] == '{';
    }
  }

  /** No placeholder starts at the front of a text that begins with lit. */
  lemma NoOpeningFront(lit: string, rest: string)
    requires NoOpening(lit) && lit != []
    ensures PlaceholderEnd(lit + rest).None?
  {
    var s := lit + rest;
    if s[0] == '{' {
      assert lit[0] == '{';
      assert s[1] == lit[1];
    }
  }

  /** Joining literal text in two steps or in one gives the same. */
  lemma ConcatLiterals(a: string, b: string, tail: Result<string, KeyError>)
    ensures Concat(Ok(a), Concat(Ok(b), tail)) == Concat(Ok(a + b), tail)
  {
    if tail.Ok? {
      assert a + (b + tail.value) == (a + b) + tail.value;
    }
  }

  /** Literal text in front is copied through verbatim. */
  lemma {:induction false} ExpandLiteralPrefix(lit: string, rest: string, env: Env)
    requires NoOpening(lit)
    ensures Expand(lit + rest, env) == Concat(Ok(lit), Expand(rest, env))
    decreases |lit|
  {
    if lit == [] {
      assert lit + rest == rest;
      var tail := Expand(rest, env);
      if tail.Ok? {
        assert lit + tail.value == tail.value;
      }
    } else {
      var s := lit + rest;
      assert s[0] == lit[0] && s[1..] == lit[1..] + rest;
      NoOpeningFront(lit, rest);
      ExpandFirstLiteral(s, env);
      NoOpeningTail(lit);
      ExpandLiteralPrefix(lit[1..], rest, env);
      ConcatLiterals([lit[0]], lit[1..], Expand(rest, env));
      assert [lit[0]] + lit[1..] == lit;
    }
  }

  /** A placeholder in front is resolved and its value put in its place;
      the rest of the template follows. */
  lemma ExpandPlaceholderPrefix(inner: string, rest: string, env: Env)
    requires inner != [] && '}' !in inner && '\n' !in inner
    ensures Expand("{{" + inner + "}}" + rest, env) == Concat(Resolve(inner, env), Expand(rest, env))
  {
    var s := "{{" + inner + "}}" + rest;
    var j := |inner| + 2;
    assert ClosesAt(s, j);
    forall k | 3 <= k < j
      ensures !ClosesAt(s, k)
    {
      assert s[k] == inner[k - 2];
    }
    assert FindClose(s, 3) == Some(j);
    assert s[2..j] == inner;
    assert PlaceholderEnd(s) == Some(j);
    assert s[j + 2..] == rest;
    var ps := [Hole(inner)] + Scan(rest);
    assert ps[1..] == Scan(rest);
  }

  /** Several placeholders are resolved independently and joined, in source
      order, with the text around them. */
  lemma ExpandTwoPlaceholders(p: string, x: string, q: string, y: string, env: Env)
    requires NoOpening(p) && NoOpening(q)
    requires x != [] && '}' !in x && '\n' !in x
    requires y != [] && '}' !in y && '\n' !in y
    ensures Expand(p + ("{{" + x + "}}") + q + ("{{" + y + "}}"), env) ==
      Concat(Ok(p), Concat(Resolve(x, env), Concat(Ok(q), Resolve(y, env))))
  {
    var tail := "{{" + y + "}}" + "";
    var mid := q + tail;
    var head := "{{" + x + "}}" + mid;
    assert p + ("{{" + x + "}}") + q + ("{{" + y + "}}") == p + head;
    ExpandWithoutPlaceholders("", env);
    ExpandPlaceholderPrefix(y, "", env);
    var vy := Resolve(y, env);
    assert Concat(vy, Ok("")) == vy by {
      if vy.Ok? {
        assert vy.value + "" == vy.value;
      }
    }
    ExpandLiteralPrefix(q, tail, env);
    ExpandPlaceholderPrefix(x, mid, env);
    ExpandLiteralPrefix(p, head, env);
  }

  // ---------------------------------------------------------------------
  // Properties of Resolve

  /** `{{ .Branch }}`, whatever whitespace surrounds it inside the braces,
      becomes the branch with every '/' turned into '_'. */
  lemma ResolveBranch(pre: string, post: string, env: Env)
    requires AllStripSpace(pre) && AllStripSpace(post)
    ensures Resolve(pre + ".Branch" + post, env) ==
      if env.branch.Some? then Ok(ReplaceSlashes(env.branch.value)) else Err(BranchUnset)
  {
    StripPadded(pre, ".Branch", post);
  }

  /** `{{ .Revision }}` becomes the commit verbatim ("" when it is unset,
      as gsub renders the block's nil). */
  lemma ResolveRevision(pre: string, post: string, env: Env)
    requires AllStripSpace(pre) && AllStripSpace(post)
    ensures Resolve(pre + ".Revision" + post, env) ==
      if env.commit.Some? then Ok(env.commit.value) else Ok("")
  {
    StripPadded(pre, ".Revision", post);
  }

  /** `{{ checksum <file> }}` hands <file> to the checksum pipeline; a
      failing pipeline raises "Checksum failed", otherwise the first field of
      its output is the value. */
  lemma ResolveChecksum(pre: string, sep: char, file: string, post: string, env: Env)
    requires AllStripSpace(pre) && AllStripSpace(post) && IsSplitSpace(sep)
    requires file != [] && !IsStripSpace(file[|file| - 1])
    ensures Resolve(pre + "checksum" + [sep] + file + post, env) ==
      match env.checksum(file)
      case None => Err(ChecksumFailed)
      case Some(out) => Ok(FirstField(out))
  {
    var x := "checksum" + [sep] + file;
    ChecksumDirective(sep, file);
    assert pre + "checksum" + [sep] + file + post == pre + x + post;
    StripPadded(pre, x, post);
    assert Parse(pre + x + post) == Checksum(file);
  }

  lemma ChecksumDirective(sep: char, file: string)
    requires IsSplitSpace(sep) && file != [] && !IsStripSpace(file[|file| - 1])
    ensures var x := "checksum" + [sep] + file;
      && x != [] && !IsStripSpace(x[0]) && !IsStripSpace(x[|x| - 1])
      && NamesChecksumFile(x) && x[9..] == file
      && x != ".Branch" && x != ".Revision"
  {
    var x := "checksum" + [sep] + file;
    assert x[..8] == "checksum";
    assert x[8] == sep;
    assert x[9..] == file;
    assert x[|x| - 1] == file[|file| - 1];
    assert 9 <= |x| - 1 && !IsSplitSpace(x[|x| - 1]);
  }

  /** A bare `checksum` names no file and is an unknown command. */
  lemma ResolveBareChecksum(pre: string, post: string, env: Env)
    requires AllStripSpace(pre) && AllStripSpace(post)
    ensures Resolve(pre + "checksum" + post, env) == Err(UnknownCommand("checksum"))
  {
    StripPadded(pre, "checksum", post);
    ChecksumCommandShape("checksum");
  }

  /** Anything that is not one of the three directives raises. */
  lemma ResolveUnknown(inner: string, env: Env)
    requires Strip(inner) != ".Branch" && Strip(inner) != ".Revision"
    requires !IsChecksumCommand(Strip(inner))
    ensures Resolve(inner, env) == Err(UnknownCommand(Strip(inner)))
  {
    ChecksumCommandShape(Strip(inner));
  }

  lemma {:induction false} ReplaceSlashesWithoutSlash(s: string)
    requires '/' !in s
    ensures ReplaceSlashes(s) == s
  {
  }

  // ---------------------------------------------------------------------
  // Keys as the pipeline configurations write them

  /** `<p>{{ .Branch }}<q>{{ .Revision }}` names the branch (slashes made
      underscores) and the commit, in that order, with p and q kept. */
  lemma ExpandBranchRevisionKey(p: string, q: string, env: Env)
    requires NoOpening(p) && NoOpening(q)
    requires env.branch.Some?
    ensures Expand(p + "{{ .Branch }}" + q + "{{ .Revision }}", env) ==
      Ok(p + (ReplaceSlashes(env.branch.value) + (q + env.commit.GetOr(""))))
  {
    BranchRevisionHoles();
    ExpandPaddedBranchRevision(p, q, " ", env);
  }

  /** The two placeholders of the branch-and-revision key, split into their
      delimiters and their contents. */
  lemma BranchRevisionHoles()
    ensures "{{ .Branch }}" == "{{" + (" " + ".Branch" + " ") + "}}"
    ensures "{{ .Revision }}" == "{{" + (" " + ".Revision" + " ") + "}}"
  {
  }

  /** ExpandBranchRevisionKey for any padding of blanks inside the braces. */
  lemma ExpandPaddedBranchRevision(p: string, q: string, pad: string, env: Env)
    requires NoOpening(p) && NoOpening(q)
    requires env.branch.Some?
    requires AllStripSpace(pad) && '\n' !in pad
    ensures Expand(p + ("{{" + (pad + ".Branch" + pad) + "}}") + q + ("{{" + (pad + ".Revision" + pad) + "}}"), env) ==
      Ok(p + (ReplaceSlashes(env.branch.value) + (q + env.commit.GetOr(""))))
  {
    var x, y := pad + ".Branch" + pad, pad + ".Revision" + pad;
    var b, c := ReplaceSlashes(env.branch.value), env.commit.GetOr("");
    assert Resolve(x, env) == Ok(b) by {
      ResolveBranch(pad, pad, env);
    }
    assert Resolve(y, env) == Ok(c) by {
      ResolveRevision(pad, pad, env);
    }
    assert Expand(p + ("{{" + x + "}}") + q + ("{{" + y + "}}"), env) ==
      Concat(Ok(p), Concat(Ok(b), Concat(Ok(q), Ok(c)))) by {
      DirectiveWordsPlain();
      PaddedNoClose(pad, ".Branch");
      PaddedNoClose(pad, ".Revision");
      ExpandTwoPlaceholders(p, x, q, y, env);
    }
    assert Concat(Ok(q), Ok(c)) == Ok(q + c);
    assert Concat(Ok(b), Ok(q + c)) == Ok(b + (q + c));
  }

  /** The directive words hold neither a closing brace nor a newline. */
  lemma DirectiveWordsPlain()
    ensures ".Branch" != [] && '}' !in ".Branch" && '\n' !in ".Branch"
    ensures ".Revision" != [] && '}' !in ".Revision" && '\n' !in ".Revision"
  {
  }

  /** A word without braces or newlines keeps none when padded with blanks
      other than newlines. */
  lemma PaddedNoClose(pad: string, w: string)
    requires AllStripSpace(pad) && '\n' !in pad
    requires w != [] && '}' !in w && '\n' !in w
    ensures pad + w + pad != [] && '}' !in pad + w + pad && '\n' !in pad + w + pad
  {
  }

  /** `<p>{{ checksum <file> }}` is p followed by the first field of the
      checksum of file, and fails as a whole when the checksum fails. */
  lemma ExpandChecksumKey(p: string, file: string, env: Env)
    requires NoOpening(p)
    requires file != [] && !IsStripSpace(file[|file| - 1])
    requires '}' !in file && '\n' !in file
    ensures Expand(p + "{{ checksum " + file + " }}", env) ==
      match env.checksum(file)
      case None => Err(ChecksumFailed)
      case Some(out) => Ok(p + FirstField(out))
  {
    var x := " " + "checksum" + [' '] + file + " ";
    var hole := "{{" + x + "}}" + "";
    assert p + "{{ checksum " + file + " }}" == p + hole;
    assert forall i :: 0 <= i < |x| ==> x[i] != '}' && x[i] != '\n' by {
      forall i | 0 <= i < |x|
        ensures x[i] != '}' && x[i] != '\n'
      {
        if 10 <= i < |x| - 1 {
          assert x[i] == file[i - 10];
        }
      }
    }
    ResolveChecksum(" ", ' ', file, " ", env);
    ExpandWithoutPlaceholders("", env);
    ExpandPlaceholderPrefix(x, "", env);
    var v := Resolve(x, env);
    assert Concat(v, Ok("")) == v by {
      if v.Ok? {
        assert v.value + "" == v.value;
      }
    }
    ExpandLiteralPrefix(p, hole, env);
  }
}
