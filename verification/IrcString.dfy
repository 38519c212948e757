/**
 The case-insensitive comparisons of src/match.c. Strings are free of NUL characters; a C string
 reads as one more character, NUL, at its end.
 */
module IrcString {
  import opened CBuffer

  // ToUpperTab: the letters, and { | } ~ to [ \ ] ^ (section 2.2 of RFC 1459).
  function ToUpper(c: char): char {
    if 'a' <= c <= '~' then ((c as int) - 32) as char else c
  }

  predicate Same(s: string, t: string) {
    |s| == |t| && forall i :: 0 <= i < |s| ==> ToUpper(s[i]) == ToUpper(t[i])
  }

  // The only characters that count as the same are the letters, and { | } ~ with [ \ ] ^.
  lemma FoldsExactly(c: char, d: char)
    ensures var small, large := "abcdefghijklmnopqrstuvwxyz{|}~", "ABCDEFGHIJKLMNOPQRSTUVWXYZ[\\]^";
            && |small| == |large| == 30
            && (ToUpper(c) == ToUpper(d)
                <==> c == d || exists i :: 0 <= i < 30 && c in [small[i], large[i]] && d in [small[i], large[i]])
  {
    var small, large := "abcdefghijklmnopqrstuvwxyz{|}~", "ABCDEFGHIJKLMNOPQRSTUVWXYZ[\\]^";
    SmallLetters();
    if c != d && ToUpper(c) == ToUpper(d) {
      var i := (ToUpper(c) as int) - 65;
      assert c in [small[i], large[i]] && d in [small[i], large[i]];
    }
  }

  lemma SmallLetters()
    ensures var small, large := "abcdefghijklmnopqrstuvwxyz{|}~", "ABCDEFGHIJKLMNOPQRSTUVWXYZ[\\]^";
            |small| == |large| == 30 && forall i :: 0 <= i < 30 ==> small[i] == (i + 97) as char
                                                                    && large[i] == (i + 65) as char
  {}

  function At(s: string, i: nat): char {
    if i < |s| then s[i] else '\0'
  }

  // irccmp: 0 when the strings are equal up to case
  method Irccmp(s1: string, s2: string) returns (r: int)
    requires IsText(s1) && IsText(s2)
    ensures r == 0 <==> Same(s1, s2)
    ensures r == 0 || r == 1
  {
    var i := 0;
    while ToUpper(At(s1, i)) == ToUpper(At(s2, i))
      invariant i <= |s1| && i <= |s2|
      invariant forall j :: 0 <= j < i ==> ToUpper(s1[j]) == ToUpper(s2[j])
      decreases |s1| - i
    {
      if At(s1, i) == '\0' {
        return 0;
      }
      i := i + 1;
    }
    return 1;
  }

  // s begins with the word, up to case
  predicate HasPrefix(s: string, word: string): (r: bool)
    ensures r ==> |word| <= |s|
  {
    |word| <= |s| && Same(s[..|word|], word)
  }

  // ircncmp(s, word, strlen(word)): 0 when the string begins with the word
  method Ircncmp(s: string, word: string) returns (r: int)
    requires IsText(s) && IsText(word) && word != ""
    ensures r == 0 <==> HasPrefix(s, word)
  {
    var i, n := 0, |word|;
    r := (ToUpper(At(s, i)) as int) - (ToUpper(At(word, i)) as int);
    while r == 0
      invariant 0 <= i < |word| && n == |word| - i && i <= |s|
      invariant r == (ToUpper(At(s, i)) as int) - (ToUpper(At(word, i)) as int)
      invariant forall j :: 0 <= j < i ==> ToUpper(s[j]) == ToUpper(word[j])
      decreases n
    {
      i, n := i + 1, n - 1;
      if n == 0 || (At(s, i) == '\0' && At(word, i) == '\0') {
        return 0;
      }
      r := (ToUpper(At(s, i)) as int) - (ToUpper(At(word, i)) as int);
    }
  }

  // The CHANPFX_C attribute.
  predicate IsChanPrefix(c: char) { c == '#' || c == '&' }
}
