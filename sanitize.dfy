/**
 * Turning a book title into a file-name stem (sanitize_filename): the nine
 * characters `\ / * ? : " < > |` are deleted, each space becomes `_`, and the
 * result is cut to its first 200 characters.
 */
module Sanitize {

  /** The longest stem the sanitiser keeps. */
  const MaxLength: nat := 200

  /** The nine characters of the deleting regular-expression class. */
  predicate Forbidden(c: char) {
    c == '\\' || c == '/' || c == '*' || c == '?' || c == ':' ||
    c == '"' || c == '<' || c == '>' || c == '|'
  }

  /** Free of deleted characters and of spaces. */
  predicate Safe(s: string) {
    forall i :: 0 <= i < |s| ==> !Forbidden(s[i]) && s[i] != ' '
  }

  /** The regular-expression substitution: every forbidden character is
      deleted and every other character is kept, in order. */
  function DeleteForbidden(s: string): (r: string)
    ensures |r| <= |s|
    ensures forall i :: 0 <= i < |r| ==> !Forbidden(r[i])
    ensures (forall i :: 0 <= i < |s| ==> s[i] != ' ') ==> forall i :: 0 <= i < |r| ==> r[i] != ' '
    ensures (forall i :: 0 <= i < |s| ==> !Forbidden(s[i])) ==> r == s
  {
    if s == [] then []
    else (if Forbidden(s[0]) then [] else [s[0]]) + DeleteForbidden(s[1..])
  }

  /** `s.replace(" ", "_")`: the same characters, each space replaced. */
  function SpacesToUnderscores(s: string): (r: string)
    ensures |r| == |s|
    ensures forall i :: 0 <= i < |s| ==> r[i] == (if s[i] == ' ' then '_' else s[i])
  {
    if s == [] then [] else [if s[0] == ' ' then '_' else s[0]] + SpacesToUnderscores(s[1..])
  }

  /** `s[:200]` */
  function Truncate(s: string): (r: string)
    ensures |r| <= MaxLength && |r| <= |s|
    ensures |r| == if |s| <= MaxLength then |s| else MaxLength
    ensures r == s[..|r|]
    ensures |s| <= MaxLength ==> r == s
  {
    if |s| <= MaxLength then s else s[..MaxLength]
  }

  /** sanitize_filename: the result is short enough and safe. */
  function SanitizeFilename(s: string): (r: string)
    ensures |r| <= MaxLength
    ensures Safe(r)
  {
    Truncate(SpacesToUnderscores(DeleteForbidden(s)))
  }

  /** The same transformation written as one pass over the title: drop a
      forbidden character, turn a space into `_`, keep anything else. */
  function Cleaned(s: string): string {
    if s == [] then []
    else if Forbidden(s[0]) then Cleaned(s[1..])
    else [if s[0] == ' ' then '_' else s[0]] + Cleaned(s[1..])
  }

  /** Deleting then replacing is the one-pass cleaning. */
  lemma {:induction false} TwoPassesAreOnePass(s: string)
    ensures SpacesToUnderscores(DeleteForbidden(s)) == Cleaned(s)
  {
    if s != [] {
      TwoPassesAreOnePass(s[1..]);
      var rest := DeleteForbidden(s[1..]);
      if !Forbidden(s[0]) {
        assert DeleteForbidden(s) == [s[0]] + rest;
        assert SpacesToUnderscores([s[0]] + rest)
            == [if s[0] == ' ' then '_' else s[0]] + SpacesToUnderscores(rest);
      }
    }
  }

  /** The stem is the first 200 characters of the cleaned title: every
      character of the title survives unless it is forbidden or lies beyond
      the limit. */
  lemma SanitizeIsCleanedPrefix(s: string)
    ensures var c := Cleaned(s);
      && |SanitizeFilename(s)| == (if |c| <= MaxLength then |c| else MaxLength)
      && SanitizeFilename(s) == c[..|SanitizeFilename(s)|]
  {
    TwoPassesAreOnePass(s);
  }

  /** A short safe name is left as it is. */
  lemma SanitizeKeepsSafeNames(s: string)
    requires |s| <= MaxLength && Safe(s)
    ensures SanitizeFilename(s) == s
  {
  }

  /** Sanitising twice is sanitising once. */
  lemma SanitizeIdempotent(s: string)
    ensures SanitizeFilename(SanitizeFilename(s)) == SanitizeFilename(s)
  {
    SanitizeKeepsSafeNames(SanitizeFilename(s));
  }

  /** An example: the slash goes, the space becomes `_`. */
  lemma SanitizeExample(title: string)
    requires title == "My/Book Title"
    ensures SanitizeFilename(title) == "MyBook_Title"
  {
    assert title == "My" + ['/'] + "Book Title";
    DeleteOneForbidden("My", '/', "Book Title");
    var d := DeleteForbidden(title);
    assert d == "MyBook Title";
    var u := SpacesToUnderscores(d);
    assert u == "MyBook_Title";
  }

  lemma DeleteOneForbidden(a: string, c: char, b: string)
    requires forall i :: 0 <= i < |a| ==> !Forbidden(a[i])
    requires forall i :: 0 <= i < |b| ==> !Forbidden(b[i])
    requires Forbidden(c)
    ensures DeleteForbidden(a + [c] + b) == a + b
  {
    DeleteAppend(a + [c], b);
    DeleteAppend(a, [c]);
  }

  lemma {:induction false} DeleteAppend(a: string, b: string)
    ensures DeleteForbidden(a + b) == DeleteForbidden(a) + DeleteForbidden(b)
  {
    if a != [] {
      assert (a + b)[0] == a[0];
      assert (a + b)[1..] == a[1..] + b;
      DeleteAppend(a[1..], b);
      var head := if Forbidden(a[0]) then [] else [a[0]];
      assert DeleteForbidden(a + b) == head + DeleteForbidden(a[1..] + b);
      assert DeleteForbidden(a) == head + DeleteForbidden(a[1..]);
      assert head + (DeleteForbidden(a[1..]) + DeleteForbidden(b))
          == (head + DeleteForbidden(a[1..])) + DeleteForbidden(b);
    } else {
      assert a + b == b;
    }
  }
}
