/** The three C string operations the quiz relies on: `s[0]` of a
    NUL-terminated buffer, `tolower` in the "C" locale, and cutting a line
    at its first newline with `s[strcspn(s, "\n")] = '\0'`. */
module CText {

  /** `s[0]` of a C string: the NUL terminator when the string is empty. */
  function FirstChar(s: string): char {
    if |s| == 0 then '\0' else s[0]
  }

  predicate IsUpper(c: char) {
    'A' <= c <= 'Z'
  }

  /** `tolower` in the "C" locale: only 'A'..'Z' change. */
  function ToLower(c: char): (r: char)
    ensures !IsUpper(r)
    ensures !IsUpper(c) ==> r == c
    ensures IsUpper(c) ==> r as int == c as int + 32
  {
    if IsUpper(c) then (c as int + 32) as char else c
  }

  /** The line up to (not including) its first '\n'; the whole line when it
      has none. */
  function StripNewline(s: string): string {
    if |s| == 0 || s[0] == '\n' then [] else [s[0]] + StripNewline(s[1..])
  }

  /** What `strcspn` finds: the result is a prefix of the line without a
      newline, and the line goes on (if at all) with a newline. */
  lemma {:induction false} StripNewlineCuts(s: string)
    ensures StripNewline(s) <= s
    ensures '\n' !in StripNewline(s)
    ensures |StripNewline(s)| < |s| ==> s[|StripNewline(s)|] == '\n'
  {
    if |s| > 0 && s[0] != '\n' {
      StripNewlineCuts(s[1..]);
    }
  }

  /** Cutting a line made of a newline-free text and a newline gives the
      text back. */
  lemma StripNewlineOfLine(text: string, rest: string)
    requires '\n' !in text
    ensures StripNewline(text + "\n" + rest) == text
  {
    var s := text + "\n" + rest;
    StripNewlineCuts(s);
    assert s[|text|] == '\n';
    assert s[..|text|] == text;
  }
}
