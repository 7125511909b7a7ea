/** The identifier deriver of cmd/update/update.go (`kebabCase`): it turns
    a free-text illustration title into a Dart enum member name by a chain
    of string rewrites. Only ASCII case mapping and ASCII white space are
    modelled. */
module Identifiers {

  predicate IsAsciiSpace(c: char) {
    c == ' ' || (9 <= c as int <= 13)  // space, \t \n \v \f \r
  }

  predicate IsUpper(c: char) { 'A' <= c <= 'Z' }

  predicate IsDigit(c: char) { '0' <= c <= '9' }

  /** No space, no hyphen and no upper-case letter. */
  predicate Clean(s: string) {
    forall i :: 0 <= i < |s| ==> s[i] != ' ' && s[i] != '-' && !IsUpper(s[i])
  }

  predicate AllSpaces(s: string) {
    forall i :: 0 <= i < |s| ==> IsAsciiSpace(s[i])
  }

  /** Where the text of `s` starts, looking from `i` on: the first index
      at or after `i` that is not white space, or |s|. */
  function TrimStart(s: string, i: nat): (j: nat)
    requires i <= |s|
    ensures i <= j <= |s|
    ensures forall k :: i <= k < j ==> IsAsciiSpace(s[k])
    ensures j < |s| ==> !IsAsciiSpace(s[j])
    decreases |s| - i
  {
    if i < |s| && IsAsciiSpace(s[i]) then TrimStart(s, i + 1) else i
  }

  /** Where the text of `s[lo..hi]` stops: one past its last character
      that is not white space, or `lo`. */
  function TrimStop(s: string, lo: nat, hi: nat): (j: nat)
    requires lo <= hi <= |s|
    ensures lo <= j <= hi
    ensures forall k :: j <= k < hi ==> IsAsciiSpace(s[k])
    ensures j > lo ==> !IsAsciiSpace(s[j - 1])
    decreases hi
  {
    if hi > lo && IsAsciiSpace(s[hi - 1]) then TrimStop(s, lo, hi - 1) else hi
  }

  /** strings.TrimSpace: the slice of `s` between its leading and its
      trailing white space. */
  function TrimSpace(s: string): (r: string)
    ensures r == [] || (!IsAsciiSpace(r[0]) && !IsAsciiSpace(r[|r| - 1]))
    ensures |r| <= |s|
  {
    var lo := TrimStart(s, 0);
    s[lo..TrimStop(s, lo, |s|)]
  }

  /** TrimSpace cuts white space, and only white space, off both ends. */
  lemma TrimSpaceSlice(s: string)
    ensures exists i :: 0 <= i <= |s| - |TrimSpace(s)| && TrimSpace(s) == s[i..i + |TrimSpace(s)|]
                        && AllSpaces(s[..i]) && AllSpaces(s[i + |TrimSpace(s)|..])
  {
    var lo := TrimStart(s, 0);
    var hi := TrimStop(s, lo, |s|);
    assert TrimSpace(s) == s[lo..hi];
    assert AllSpaces(s[..lo]);
    assert AllSpaces(s[hi..]);
  }

  function LowerChar(c: char): (d: char)
    ensures !IsUpper(d)
    ensures IsDigit(d) <==> IsDigit(c)
  {
    if IsUpper(c) then (c as int + 32) as char else c
  }

  /** strings.ToLower on ASCII letters. */
  function ToLower(s: string): (r: string)
    ensures |r| == |s|
    ensures forall i :: 0 <= i < |s| ==> r[i] == LowerChar(s[i])
  {
    seq(|s|, i requires 0 <= i < |s| => LowerChar(s[i]))
  }

  /** strings.ReplaceAll with a one-character old and new string. */
  function ReplaceChar(s: string, from: char, to: char): (r: string)
    ensures |r| == |s|
    ensures forall i :: 0 <= i < |s| ==> r[i] == if s[i] == from then to else s[i]
  {
    seq(|s|, i requires 0 <= i < |s| => if s[i] == from then to else s[i])
  }

  /** Steps 1 and 2 of kebabCase: trim, lower-case, and turn every space and
      every hyphen into an underscore. */
  function Normalize(title: string): (v: string)
    ensures |v| == |TrimSpace(title)|
    ensures Clean(v)
    ensures |v| > 0 ==> (IsDigit(v[0]) <==> IsDigit(TrimSpace(title)[0]))
  {
    ReplaceChar(ReplaceChar(ToLower(TrimSpace(title)), ' ', '_'), '-', '_')
  }

  predicate StartsWithDigit(s: string) { |s| > 0 && IsDigit(s[0]) }

  /** The `^\d+` rewrite: an underscore goes in front of a leading digit run. */
  function PrefixLeadingDigits(s: string): (r: string)
    ensures !StartsWithDigit(r)
    ensures StartsWithDigit(s) ==> r == "_" + s
    ensures !StartsWithDigit(s) ==> r == s
  {
    if StartsWithDigit(s) then "_" + s else s
  }

  predicate VoidAt(s: string, i: int) {
    0 <= i && i + 4 <= |s| && s[i..i + 4] == "void"
  }

  predicate ContainsVoid(s: string) {
    exists i :: 0 <= i <= |s| - 4 && VoidAt(s, i)
  }

  /** `i` is where the first occurrence of "void" in `s` starts. */
  predicate FirstVoidAt(s: string, i: int) {
    VoidAt(s, i) && forall j :: 0 <= j < i ==> !VoidAt(s, j)
  }

  /** Past a position where "void" does not start, the occurrences of "void"
      are those of the tail, shifted by one. */
  lemma VoidInTail(s: string)
    requires |s| > 0 && !VoidAt(s, 0)
    ensures forall j :: 1 <= j ==> (VoidAt(s, j) <==> VoidAt(s[1..], j - 1))
    ensures ContainsVoid(s) <==> ContainsVoid(s[1..])
  {
    forall j | 1 <= j ensures VoidAt(s, j) <==> VoidAt(s[1..], j - 1) {
      if j + 4 <= |s| { assert s[j..j + 4] == s[1..][j - 1..j + 3]; }
    }
    if ContainsVoid(s) {
      var i :| 0 <= i <= |s| - 4 && VoidAt(s, i);
      assert VoidAt(s[1..], i - 1);
    }
    if ContainsVoid(s[1..]) {
      var i :| 0 <= i <= |s| - 5 && VoidAt(s[1..], i);
      assert VoidAt(s, i + 1);
    }
  }

  /** strings.Replace(s, "void", "void_", 1): an underscore goes after the
      first occurrence of "void", wherever it is; nothing else changes
      (EscapeVoidLength and EscapeVoidFirst say where the underscore goes). */
  function EscapeVoid(s: string): (r: string)
    ensures Clean(s) ==> Clean(r)
    ensures |r| >= |s| && (|s| > 0 ==> r[0] == s[0])
    decreases |s|
  {
    if |s| < 4 then
      s
    else if s[..4] == "void" then
      "void_" + s[4..]
    else
      [s[0]] + EscapeVoid(s[1..])
  }

  /** Without "void" the rewrite changes nothing; with it, it inserts
      exactly one character. */
  lemma {:induction false} EscapeVoidLength(s: string)
    ensures !ContainsVoid(s) ==> EscapeVoid(s) == s
    ensures |EscapeVoid(s)| == |s| + (if ContainsVoid(s) then 1 else 0)
    decreases |s|
  {
    if |s| < 4 {
      assert !ContainsVoid(s);
    } else if s[..4] == "void" {
      assert VoidAt(s, 0);
    } else {
      VoidInTail(s);
      EscapeVoidLength(s[1..]);
    }
  }

  /** Where the first "void" of `s` starts. */
  function FirstVoid(s: string): (i: nat)
    requires ContainsVoid(s)
    ensures i <= |s| - 4 && FirstVoidAt(s, i)
    decreases |s|
  {
    if VoidAt(s, 0) then 0
    else
      VoidInTail(s);
      var i := FirstVoid(s[1..]);
      FirstVoidShift(s, i);
      i + 1
  }

  /** The underscore goes right after the first "void" and nowhere else. */
  lemma {:induction false} EscapeVoidFirst(s: string)
    requires ContainsVoid(s)
    ensures EscapeVoid(s) == s[..FirstVoid(s) + 4] + "_" + s[FirstVoid(s) + 4..]
    decreases |s|
  {
    if s[..4] == "void" {
      assert VoidAt(s, 0);
    } else {
      assert !VoidAt(s, 0);
      VoidInTail(s);
      EscapeVoidFirst(s[1..]);
      EscapeVoidShift(s, FirstVoid(s[1..]));
    }
  }

  /** One step of EscapeVoidFirst: an occurrence found in the tail of a
      string that does not start with "void" is the first one of the string. */
  lemma EscapeVoidShift(s: string, i: nat)
    requires |s| >= 5 + i && !VoidAt(s, 0)
    requires FirstVoidAt(s[1..], i)
    requires EscapeVoid(s[1..]) == s[1..][..i + 4] + "_" + s[1..][i + 4..]
    ensures FirstVoidAt(s, i + 1) && EscapeVoid(s) == s[..i + 5] + "_" + s[i + 5..]
  {
    FirstVoidShift(s, i);
    assert EscapeVoid(s) == [s[0]] + EscapeVoid(s[1..]) by { assert s[..4] != "void"; }
    ConsInsert(s, i + 5);
  }

  lemma FirstVoidShift(s: string, i: nat)
    requires |s| >= 5 + i && !VoidAt(s, 0)
    requires FirstVoidAt(s[1..], i)
    ensures FirstVoidAt(s, i + 1)
  {
    VoidInTail(s);
  }

  lemma ConsInsert(s: string, k: nat)
    requires 1 <= k <= |s|
    ensures [s[0]] + (s[1..][..k - 1] + "_" + s[1..][k - 1..]) == s[..k] + "_" + s[k..]
  {
    assert [s[0]] + s[1..][..k - 1] == s[..k];
    assert s[1..][k - 1..] == s[k..];
  }

  /** kebabCase: the identifier derived from a title. It never holds a
      space, a hyphen or an upper-case letter and never starts with a
      digit. Other punctuation passes through unchanged. */
  function KebabCase(title: string): (id: string)
    ensures Clean(id)
    ensures !StartsWithDigit(id)
  {
    var v := Normalize(title);
    var p := PrefixLeadingDigits(v);
    assert Clean(p) by { if StartsWithDigit(v) { assert p == "_" + v; } }
    EscapeVoid(p)
  }

  /** The digit rewrite never creates a "void" that was not there. */
  lemma {:induction false} ContainsVoidUnderscore(v: string)
    ensures ContainsVoid("_" + v) <==> ContainsVoid(v)
  {
    var u := "_" + v;
    assert u[0] == '_' && u[1..] == v;
    if ContainsVoid(u) {
      var i :| 0 <= i <= |u| - 4 && VoidAt(u, i);
      assert u[i] == u[i..i + 4][0] == 'v';
      assert u[i..i + 4] == v[i - 1..i + 3];
      assert VoidAt(v, i - 1);
    }
    if ContainsVoid(v) {
      var i :| 0 <= i <= |v| - 4 && VoidAt(v, i);
      assert u[i + 1..i + 5] == u[1..][i..i + 4] == v[i..i + 4];
      assert VoidAt(u, i + 1);
    }
  }

  /** At most one character is inserted per rewrite: the identifier is as
      long as the trimmed title, plus one for a leading digit run, plus one
      if the title holds "void" (compared case-insensitively). */
  lemma KebabCaseLength(title: string)
    ensures |KebabCase(title)| == |TrimSpace(title)|
      + (if StartsWithDigit(TrimSpace(title)) then 1 else 0)
      + (if ContainsVoid(Normalize(title)) then 1 else 0)
  {
    var v := Normalize(title);
    var p := PrefixLeadingDigits(v);
    EscapeVoidLength(p);
    if StartsWithDigit(v) {
      assert p == "_" + v;
      ContainsVoidUnderscore(v);
    }
    assert StartsWithDigit(v) <==> StartsWithDigit(TrimSpace(title));
  }

  /** A title whose trimmed, normalized form starts with digits gets an
      underscore in front of it, and only then does the "void" step run. */
  lemma KebabCaseLeadingDigits(title: string)
    requires StartsWithDigit(TrimSpace(title))
    ensures KebabCase(title) == EscapeVoid("_" + Normalize(title))
    ensures KebabCase(title)[0] == '_'
  {
  }

  /** Trimming a string without white space at either end changes nothing. */
  lemma TrimSpaceKeeps(s: string)
    requires s == [] || (!IsAsciiSpace(s[0]) && !IsAsciiSpace(s[|s| - 1]))
    ensures TrimSpace(s) == s
  {
  }

  lemma ToLowerKeeps(s: string)
    requires forall i :: 0 <= i < |s| ==> !IsUpper(s[i])
    ensures ToLower(s) == s
  {
  }

  lemma ReplaceCharKeeps(s: string, from: char, to: char)
    requires forall i :: 0 <= i < |s| ==> s[i] != from
    ensures ReplaceChar(s, from, to) == s
  {
  }

  lemma {:induction false} EscapeVoidKeeps(s: string)
    requires forall i :: 0 <= i < |s| ==> s[i] != 'v'
    ensures EscapeVoid(s) == s
  {
    forall i | 0 <= i <= |s| - 4 ensures !VoidAt(s, i) {
      assert s[i..i + 4][0] == s[i];
    }
    EscapeVoidLength(s);
  }

  /** The documented examples. */
  lemma KebabCaseVoid()
    ensures KebabCase("Void") == "void_"
  {
    TrimSpaceKeeps("Void");
    var l := ToLower("Void");
    assert LowerChar('V') == 'v';
    assert l[0] == 'v' && l[1] == 'o';
    assert l == "void";
    assert Normalize("Void") == "void";
    assert EscapeVoid("void") == "void_";
  }

  lemma KebabCaseAvoid()
    ensures KebabCase("avoid") == "avoid_"
  {
    var t := "avoid";
    TrimSpaceKeeps(t);
    ToLowerKeeps(t);
    ReplaceCharKeeps(t, ' ', '_');
    ReplaceCharKeeps(t, '-', '_');
    assert Normalize(t) == t;
    assert PrefixLeadingDigits(t) == t;
    assert t[..4] != "void" && t[1..] == "void";
    assert EscapeVoid(t) == ['a'] + EscapeVoid("void");
  }

  lemma KebabCaseOnce()
    ensures KebabCase("void void") == "void__void"
  {
    TrimSpaceKeeps("void void");
    ToLowerKeeps("void void");
    var u := ReplaceChar("void void", ' ', '_');
    assert u[4] == '_';
    assert u == "void_void";
    assert ReplaceChar("void_void", '-', '_') == "void_void";
    assert "void_void"[..4] == "void";
    assert EscapeVoid("void_void") == "void_" + "_void";
  }
  lemma KebabCaseDigits()
    ensures KebabCase("3D Art") == "_3d_art"
  {
    var t := "3D Art";
    NormalizeDigitsExample();
    KebabCaseLeadingDigits(t);
    assert "_" + Normalize(t) == "_3d_art";
    EscapeVoidKeeps("_3d_art");
  }

  lemma NormalizeDigitsExample()
    ensures TrimSpace("3D Art") == "3D Art" && Normalize("3D Art") == "3d_art"
  {
    var t := "3D Art";
    TrimSpaceKeeps(t);
    var l := ToLower(t);
    assert LowerChar('D') == 'd' && LowerChar('A') == 'a';
    assert l == "3d art";
    var u := ReplaceChar(l, ' ', '_');
    assert u == "3d_art";
    ReplaceCharKeeps(u, '-', '_');
  }

  lemma KebabCaseTrims()
    ensures KebabCase(" Go-Team ") == "go_team"
  {
    var t := " Go-Team ";
    assert TrimStart(t, 0) == 1;
    assert TrimStop(t, 1, |t|) == 8;
    assert TrimSpace(t) == "Go-Team";
    var l := ToLower("Go-Team");
    assert LowerChar('G') == 'g' && LowerChar('T') == 't';
    assert l == "go-team";
    ReplaceCharKeeps(l, ' ', '_');
    var u := ReplaceChar(l, '-', '_');
    assert u == "go_team";
    assert Normalize(t) == u;
    EscapeVoidKeeps(u);
    assert PrefixLeadingDigits(u) == u;
  }
}
