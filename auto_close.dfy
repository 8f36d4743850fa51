/**
 * The editor's auto-closing-tag rule, as AutoClose decides it: when `>` is
 * typed just after an opening tag `<name ...`, the matching `</name>` is meant
 * to be inserted at the cursor, with the cursor staying where it was.  The
 * handler as written tests a prefix that already ends in the typed `>`, so it
 * never inserts anything (OnDidTypeAsWritten, AsWrittenNeverCloses); OnDidType
 * is the corrected handler.  The regular expression `<(\w+)(?:\s[^>]*)?$` of
 * the handler is stated as the predicate OpenerAt, and TagMatch, the scanner
 * that plays the part of `String.prototype.match`, is proved to agree with it.
 */
module AutoCloseTag {
  import opened Wrappers

  /** `\w` of a JavaScript regular expression without the `u` flag: [A-Za-z0-9_]. */
  predicate IsWordChar(c: char) {
    ('a' <= c <= 'z') || ('A' <= c <= 'Z') || ('0' <= c <= '9') || c == '_'
  }

  /** `\s`: the WhiteSpace and LineTerminator code points of ECMAScript. */
  predicate IsSpace(c: char) {
    var n := c as int;
    n == 0x09 || n == 0x0A || n == 0x0B || n == 0x0C || n == 0x0D || n == 0x20
    || n == 0xA0 || n == 0x1680 || (0x2000 <= n <= 0x200A) || n == 0x2028
    || n == 0x2029 || n == 0x202F || n == 0x205F || n == 0x3000 || n == 0xFEFF
  }

  /** `toLowerCase` on the characters `\w` admits: only A-Z change. */
  predicate IsUpper(c: char) {
    'A' <= c <= 'Z'
  }

  function ToLower(c: char): char {
    if IsUpper(c) then (c as int + 32) as char else c
  }

  /**
   * `toLowerCase` of a tag name: no upper-case letter is left, each upper-case
   * letter becomes its lower-case partner, and every other character stays.
   */
  function LowerName(name: string): (r: string)
    ensures |r| == |name|
    ensures forall j :: 0 <= j < |r| ==> !IsUpper(r[j])
    ensures forall j :: 0 <= j < |r| && IsUpper(name[j]) ==> r[j] as int == name[j] as int + 32
    ensures forall j :: 0 <= j < |r| && !IsUpper(name[j]) ==> r[j] == name[j]
  {
    seq(|name|, j requires 0 <= j < |name| => ToLower(name[j]))
  }

  /** `a` and `b` are the same name up to ASCII letter case. */
  predicate CaseVariants(a: string, b: string) {
    |a| == |b|
    && forall j :: 0 <= j < |a| ==>
         a[j] == b[j]
         || (IsUpper(a[j]) && b[j] as int == a[j] as int + 32)
         || (IsUpper(b[j]) && a[j] as int == b[j] as int + 32)
  }

  /** Two names lower-case alike exactly when they differ only in letter case. */
  lemma LowerNameIgnoresCase(a: string, b: string)
    ensures LowerName(a) == LowerName(b) <==> CaseVariants(a, b)
  {
    var la, lb := LowerName(a), LowerName(b);
    if CaseVariants(a, b) {
      forall j | 0 <= j < |a| ensures la[j] == lb[j] {
        if IsUpper(a[j]) && b[j] as int == a[j] as int + 32 {
          assert !IsUpper(b[j]);
        } else if IsUpper(b[j]) && a[j] as int == b[j] as int + 32 {
          assert !IsUpper(a[j]);
        }
      }
    }
    if la == lb {
      assert |a| == |b|;
      forall j | 0 <= j < |a|
        ensures a[j] == b[j]
                || (IsUpper(a[j]) && b[j] as int == a[j] as int + 32)
                || (IsUpper(b[j]) && a[j] as int == b[j] as int + 32)
      {
        assert la[j] == lb[j];
      }
    }
  }

  /** The elements the handler never closes. */
  const VoidElements: seq<string> :=
    ["area", "base", "br", "col", "embed", "hr", "img", "input", "link", "meta",
     "source", "track", "wbr"]

  /**
   * `<(\w+)(?:\s[^>]*)?$` matches `s` from index `i`, with the captured name
   * occupying `s[i+1..k]`: a `<`, one or more word characters, and then either
   * the end of `s` or a white-space character followed by no `>` at all.
   */
  predicate OpenerAt(s: string, i: int, k: int) {
    0 <= i && i + 1 < k <= |s| && s[i] == '<'
    && (forall j :: i < j < k ==> IsWordChar(s[j]))
    && (k == |s| || (IsSpace(s[k]) && forall j :: k < j < |s| ==> s[j] != '>'))
  }

  /** The match `match` reports: the one that starts leftmost. */
  ghost predicate LeftmostOpener(s: string, i: int, k: int) {
    OpenerAt(s, i, k) && forall j, k' :: 0 <= j < i ==> !OpenerAt(s, j, k')
  }

  /** End of the run of word characters that starts at `j`. */
  function WordEnd(s: string, j: nat): (k: nat)
    requires j <= |s|
    ensures j <= k <= |s|
    ensures forall m :: j <= m < k ==> IsWordChar(s[m])
    ensures k < |s| ==> !IsWordChar(s[k])
    decreases |s| - j
  {
    if j < |s| && IsWordChar(s[j]) then WordEnd(s, j + 1) else j
  }

  /** A run of word characters that ends at `k` and no later ends where WordEnd says. */
  lemma {:induction false} WordEndAt(s: string, j: nat, k: nat)
    requires j <= k <= |s|
    requires forall m :: j <= m < k ==> IsWordChar(s[m])
    requires k < |s| ==> !IsWordChar(s[k])
    ensures WordEnd(s, j) == k
    decreases k - j
  {
    if j < k {
      WordEndAt(s, j + 1, k);
    }
  }

  lemma SpaceIsNotWordChar(c: char)
    requires IsSpace(c)
    ensures !IsWordChar(c)
  {
  }

  /** The greedy `\w+` leaves no choice: a match from `i` ends where the word run ends. */
  lemma OpenerEnd(s: string, i: int, k: int)
    requires OpenerAt(s, i, k)
    ensures k == WordEnd(s, i + 1)
  {
    if k < |s| {
      SpaceIsNotWordChar(s[k]);
    }
    WordEndAt(s, i + 1, k);
  }

  /** Tries the pattern at index `i` only, as the regular-expression engine does. */
  function TryAt(s: string, i: nat): (r: Option<nat>)
    requires i < |s|
    ensures r.Some? ==> OpenerAt(s, i, r.value)
    ensures r.None? ==> forall k :: !OpenerAt(s, i, k)
  {
    if s[i] != '<' then None
    else
      var k := WordEnd(s, i + 1);
      if i + 1 < k && (k == |s| || (IsSpace(s[k]) && forall j :: k < j < |s| ==> s[j] != '>'))
      then Some(k)
      else
        assert forall k' :: OpenerAt(s, i, k') ==> k' == k by {
          forall k' | OpenerAt(s, i, k') ensures k' == k { OpenerEnd(s, i, k'); }
        }
        None
  }

  /** Scans start positions from `i` upwards and returns the first match. */
  function FindOpener(s: string, i: nat): (r: Option<(nat, nat)>)
    requires i <= |s|
    ensures r.Some? ==> i <= r.value.0 && OpenerAt(s, r.value.0, r.value.1)
    ensures r.Some? ==> forall j, k :: i <= j < r.value.0 ==> !OpenerAt(s, j, k)
    ensures r.None? ==> forall j, k :: i <= j ==> !OpenerAt(s, j, k)
    decreases |s| - i
  {
    if i == |s| then None
    else match TryAt(s, i)
      case Some(k) => Some((i, k))
      case None => FindOpener(s, i + 1)
  }

  /** `s.match(/<(\w+)(?:\s[^>]*)?$/)[1]`, or None when `match` returns null. */
  function TagMatch(s: string): (r: Option<string>)
    ensures r.Some? <==> exists i, k :: OpenerAt(s, i, k)
    ensures r.Some? ==> exists i, k :: LeftmostOpener(s, i, k) && r.value == s[i + 1..k]
  {
    match FindOpener(s, 0)
    case None => None
    case Some((i, k)) =>
      assert LeftmostOpener(s, i, k);
      Some(s[i + 1..k])
  }

  /** The leftmost match, once exhibited, fixes the captured name. */
  lemma LeftmostDeterminesName(s: string, i: int, k: int)
    requires LeftmostOpener(s, i, k)
    ensures TagMatch(s) == Some(s[i + 1..k])
  {
    assert TagMatch(s).Some?;
    var i', k' :| LeftmostOpener(s, i', k') && TagMatch(s).value == s[i' + 1..k'];
    assert OpenerAt(s, i', k') && OpenerAt(s, i, k);
    assert !(i' < i) && !(i < i');
    OpenerEnd(s, i, k);
    OpenerEnd(s, i', k');
  }

  /** The captured name is a non-empty run of word characters preceded by `<`. */
  lemma MatchedNameShape(s: string)
    requires TagMatch(s).Some?
    ensures |TagMatch(s).value| > 0
    ensures forall j :: 0 <= j < |TagMatch(s).value| ==> IsWordChar(TagMatch(s).value[j])
    ensures exists i :: 0 <= i < |s| - |TagMatch(s).value|
                        && s[i] == '<' && s[i + 1..i + 1 + |TagMatch(s).value|] == TagMatch(s).value
  {
    var i, k :| LeftmostOpener(s, i, k) && TagMatch(s).value == s[i + 1..k];
    assert s[i + 1..i + 1 + |TagMatch(s).value|] == TagMatch(s).value;
  }

  datatype Position = Position(lineNumber: int, column: int)

  /** What the `onDidType` handler does to the editor model. */
  datatype Edit =
    | NoEdit
      /** Insert `text` at `at`, then put the cursor at `cursor`. */
    | InsertText(at: Position, text: string, cursor: Position)

  /**
   * The handler's decision, given the typed text, the line text before the
   * cursor and the cursor position.
   */
  function AutoClose(typed: string, beforeCursor: string, pos: Position): (e: Edit)
    ensures e.InsertText? ==> e.at == pos && e.cursor == pos
    ensures e.InsertText? <==> typed == ">" && TagMatch(beforeCursor).Some?
                               && LowerName(TagMatch(beforeCursor).value) !in VoidElements
    ensures e.InsertText? ==> e.text == "</" + LowerName(TagMatch(beforeCursor).value) + ">"
  {
    if typed != ">" then NoEdit
    else match TagMatch(beforeCursor)
      case None => NoEdit
      case Some(name) =>
        var tagName := LowerName(name);
        if tagName in VoidElements then NoEdit
        else InsertText(pos, "</" + tagName + ">", pos)
  }

  /** A `>` after an opener with a non-void name inserts exactly its closing tag at the cursor. */
  lemma ClosesOpenTag(beforeCursor: string, i: int, k: int, pos: Position)
    requires LeftmostOpener(beforeCursor, i, k)
    requires LowerName(beforeCursor[i + 1..k]) !in VoidElements
    ensures AutoClose(">", beforeCursor, pos)
            == InsertText(pos, "</" + LowerName(beforeCursor[i + 1..k]) + ">", pos)
  {
    LeftmostDeterminesName(beforeCursor, i, k);
  }

  lemma NoEditUnlessGt(typed: string, beforeCursor: string, pos: Position)
    requires typed != ">"
    ensures AutoClose(typed, beforeCursor, pos) == NoEdit
  {
  }

  /** A void element name is never closed. */
  lemma NoEditForVoidElement(beforeCursor: string, i: int, k: int, pos: Position)
    requires LeftmostOpener(beforeCursor, i, k)
    requires LowerName(beforeCursor[i + 1..k]) in VoidElements
    ensures AutoClose(">", beforeCursor, pos) == NoEdit
  {
    LeftmostDeterminesName(beforeCursor, i, k);
  }

  /** Written in any letter case, a void element name is still never closed. */
  lemma VoidElementInAnyCase(beforeCursor: string, i: int, k: int, pos: Position, void: string)
    requires LeftmostOpener(beforeCursor, i, k)
    requires void in VoidElements && CaseVariants(beforeCursor[i + 1..k], void)
    ensures AutoClose(">", beforeCursor, pos) == NoEdit
  {
    LowerNameIgnoresCase(beforeCursor[i + 1..k], void);
    assert LowerName(void) == void;
    NoEditForVoidElement(beforeCursor, i, k, pos);
  }

  /** `>` is excluded from both the name and the tail, so a prefix ending in `>` never matches. */
  lemma NoMatchAfterGt(s: string)
    requires |s| > 0 && s[|s| - 1] == '>'
    ensures TagMatch(s) == None
  {
    assert !IsWordChar('>') && !IsSpace('>');
  }

  lemma NoEditAfterGt(typed: string, beforeCursor: string, pos: Position)
    requires |beforeCursor| > 0 && beforeCursor[|beforeCursor| - 1] == '>'
    ensures AutoClose(typed, beforeCursor, pos) == NoEdit
  {
    NoMatchAfterGt(beforeCursor);
  }

  /** Without a `<` directly followed by a word character nothing is inserted. */
  lemma NoEditWithoutOpener(typed: string, beforeCursor: string, pos: Position)
    requires forall i :: 0 <= i < |beforeCursor| - 1 && beforeCursor[i] == '<'
                         ==> !IsWordChar(beforeCursor[i + 1])
    ensures AutoClose(typed, beforeCursor, pos) == NoEdit
  {
    forall i, k ensures !OpenerAt(beforeCursor, i, k) {
      if 0 <= i && i + 1 < k <= |beforeCursor| && beforeCursor[i] == '<' {
        assert !IsWordChar(beforeCursor[i + 1]);
      }
    }
  }

  /** `match` reports the leftmost opener, so `<div <span` closes `div`. */
  lemma LeftmostOpenerIsClosed(pos: Position)
    ensures AutoClose(">", "<div <span", pos) == InsertText(pos, "</div>", pos)
  {
    var s := "<div <span";
    assert OpenerAt(s, 0, 4);
    assert s[1..4] == "div";
    DivIsNotVoid();
    ClosesOpenTag(s, 0, 4, pos);
  }

  /** The void list is checked after lower-casing, so `<BR` is not closed. */
  lemma UpperCaseVoidNotClosed(pos: Position)
    ensures AutoClose(">", "<BR", pos) == NoEdit
  {
    var s := "<BR";
    assert OpenerAt(s, 0, 3);
    assert LowerName(s[1..3]) == "br";
    NoEditForVoidElement(s, 0, 3, pos);
  }

  /** `s.substring(0, end)`: JavaScript clamps `end` into `[0, s.length]`. */
  function Substring0(s: string, end: int): (r: string)
    ensures |r| == if end < 0 then 0 else if end > |s| then |s| else end
    ensures r <= s
  {
    if end < 0 then [] else if end > |s| then s else s[..end]
  }

  /**
   * The handler as written: `pos` is the cursor after the typed text went in,
   * and the prefix is `lineContent.substring(0, pos.column - 1)`.
   */
  function OnDidTypeAsWritten(typed: string, line: string, pos: Position): (e: Edit)
    ensures e.InsertText? ==> e.at == pos && e.cursor == pos && typed == ">"
  {
    AutoClose(typed, Substring0(line, pos.column - 1), pos)
  }

  /**
   * The `>` that raised the event is already in the line, just left of the
   * cursor, so the prefix the handler tests ends in `>` and nothing is inserted.
   */
  lemma AsWrittenNeverCloses(before: string, after: string, pos: Position)
    requires pos.column == |before| + 2
    ensures OnDidTypeAsWritten(">", before + ">" + after, pos) == NoEdit
  {
    var line := before + ">" + after;
    var p := Substring0(line, pos.column - 1);
    assert p == before + ">" by {
      assert line[..|before| + 1] == before + ">";
    }
    NoEditAfterGt(">", p, pos);
  }

  /** Typing `>` after `<div` leaves the line `<div>` with the cursor at column 6. */
  lemma AsWrittenMissesDiv()
    ensures OnDidTypeAsWritten(">", "<div>", Position(1, 6)) == NoEdit
  {
    AsWrittenNeverCloses("<div", "", Position(1, 6));
    assert "<div" + ">" + "" == "<div>";
  }

  /**
   * The handler as intended: the pattern is tested on the line before the
   * typed text, and the closing tag goes in at the cursor, after the `>`.
   */
  function OnDidType(typed: string, line: string, pos: Position): (e: Edit)
    ensures e.InsertText? ==> e.at == pos && e.cursor == pos && typed == ">"
  {
    AutoClose(typed, Substring0(line, pos.column - 1 - |typed|), pos)
  }

  /** The text left of the typed `>` is what the corrected handler tests. */
  lemma PrefixBeforeTyped(before: string, after: string)
    ensures Substring0(before + ">" + after, |before|) == before
  {
    assert (before + ">" + after)[..|before|] == before;
  }

  /**
   * With the cursor just right of the typed `>`, the corrected handler makes
   * exactly the decision AutoClose makes on the text before that `>`.
   */
  lemma OnDidTypeDecidesOnPrefix(before: string, after: string, pos: Position)
    requires pos.column == |before| + 2
    ensures OnDidType(">", before + ">" + after, pos) == AutoClose(">", before, pos)
  {
    PrefixBeforeTyped(before, after);
  }

  /** After `>` completes an opener with a non-void name, its closing tag is inserted. */
  lemma OnDidTypeCloses(before: string, after: string, pos: Position, name: string)
    requires pos.column == |before| + 2
    requires TagMatch(before) == Some(name) && LowerName(name) !in VoidElements
    ensures OnDidType(">", before + ">" + after, pos)
            == InsertText(pos, "</" + LowerName(name) + ">", pos)
  {
    OnDidTypeDecidesOnPrefix(before, after, pos);
  }

  /** `div` is not a void element. */
  lemma DivIsNotVoid()
    ensures LowerName("div") == "div" && "div" !in VoidElements
  {
    assert "div"[0] == 'd';
    forall v | v in VoidElements ensures v != "div" {
      assert v[0] != 'd' || |v| != 3;
    }
  }

  lemma OnDidTypeClosesDiv()
    ensures OnDidType(">", "<div>", Position(1, 6)) == InsertText(Position(1, 6), "</div>", Position(1, 6))
  {
    var before := "<div";
    assert OpenerAt(before, 0, 4) && before[1..4] == "div";
    assert LeftmostOpener(before, 0, 4);
    DivIsNotVoid();
    LeftmostDeterminesName(before, 0, 4);
    OnDidTypeCloses(before, "", Position(1, 6), "div");
    assert before + ">" + "" == "<div>";
  }

}
