/**
 * The string operations the key-binding parser relies on: splitting a binding
 * on '-' and the three case foldings tried when a key name is looked up
 * (lower case, upper case and title case). Case mapping is modelled for ASCII
 * letters only.
 */
module KeyStrings {

  predicate IsUpperAscii(c: char) { 'A' <= c <= 'Z' }

  predicate IsLowerAscii(c: char) { 'a' <= c <= 'z' }

  function LowerChar(c: char): (d: char)
    ensures !IsUpperAscii(d)
    ensures IsUpperAscii(c) ==> d as int == c as int + 32
    ensures !IsUpperAscii(c) ==> d == c
  {
    if IsUpperAscii(c) then (c as int + 32) as char else c
  }

  function UpperChar(c: char): (d: char)
    ensures !IsLowerAscii(d)
    ensures IsLowerAscii(c) ==> d as int == c as int - 32
    ensures !IsLowerAscii(c) ==> d == c
  {
    if IsLowerAscii(c) then (c as int - 32) as char else c
  }

  /** ASCII model of strings.ToLower. */
  function Lower(s: string): (r: string)
    ensures |r| == |s|
    ensures forall i :: 0 <= i < |s| ==> r[i] == LowerChar(s[i])
  {
    if s == [] then [] else [LowerChar(s[0])] + Lower(s[1..])
  }

  /** ASCII model of strings.ToUpper. */
  function Upper(s: string): (r: string)
    ensures |r| == |s|
    ensures forall i :: 0 <= i < |s| ==> r[i] == UpperChar(s[i])
  {
    if s == [] then [] else [UpperChar(s[0])] + Upper(s[1..])
  }

  /**
   * The word-boundary test of strings.Title: ASCII letters, digits and '_'
   * continue a word, every other ASCII character separates words. Characters
   * beyond ASCII are treated as word characters.
   */
  predicate IsSeparator(c: char) {
    c as int <= 0x7F && !(IsLowerAscii(c) || IsUpperAscii(c) || ('0' <= c <= '9') || c == '_')
  }

  /** strings.Title, continuing after a character that was (or was not) a separator. */
  function TitleAfter(s: string, prevIsSeparator: bool): (r: string)
    ensures |r| == |s|
    ensures forall i :: 0 <= i < |s| ==>
      r[i] == if (if i == 0 then prevIsSeparator else IsSeparator(s[i - 1])) then UpperChar(s[i]) else s[i]
  {
    if s == [] then []
    else [if prevIsSeparator then UpperChar(s[0]) else s[0]] + TitleAfter(s[1..], IsSeparator(s[0]))
  }

  /**
   * strings.Title: upper-cases the first letter of every word and leaves every
   * other character as it is (it does not lower-case the rest of a word).
   */
  function Title(s: string): (r: string)
    ensures |r| == |s|
    ensures forall i :: 0 <= i < |s| ==>
      r[i] == if i == 0 || IsSeparator(s[i - 1]) then UpperChar(s[i]) else s[i]
  {
    TitleAfter(s, true)
  }

  /** strings.Split with a one-character separator: the pieces between separators. */
  function Split(s: string, sep: char): (parts: seq<string>)
    ensures |parts| >= 1
    ensures forall i :: 0 <= i < |parts| ==> sep !in parts[i]
  {
    if s == [] then [""]
    else
      var rest := Split(s[1..], sep);
      if s[0] == sep then [""] + rest
      else [[s[0]] + rest[0]] + rest[1..]
  }

  /** strings.Join, the inverse of Split. */
  function Join(parts: seq<string>, sep: char): string
    requires |parts| >= 1
  {
    if |parts| == 1 then parts[0] else parts[0] + [sep] + Join(parts[1..], sep)
  }

  /** Joining the pieces of a split gives back the original string. */
  lemma {:induction false} JoinSplit(s: string, sep: char)
    ensures Join(Split(s, sep), sep) == s
  {
    if s != [] {
      var rest := Split(s[1..], sep);
      JoinSplit(s[1..], sep);
      if s[0] == sep {
        assert Split(s, sep)[1..] == rest;
      } else {
        var parts := Split(s, sep);
        if |rest| == 1 {
          assert parts == [[s[0]] + rest[0]];
        } else {
          assert parts[1..] == rest[1..];
          assert Join(rest, sep) == rest[0] + [sep] + Join(rest[1..], sep);
        }
      }
    }
  }

  /** Splitting a join of separator-free pieces gives back the pieces. */
  lemma {:induction false} SplitJoin(parts: seq<string>, sep: char)
    requires |parts| >= 1
    requires forall i :: 0 <= i < |parts| ==> sep !in parts[i]
    ensures Split(Join(parts, sep), sep) == parts
  {
    if |parts| == 1 {
      SplitPiece(parts[0], sep);
    } else {
      SplitJoin(parts[1..], sep);
      SplitConcat(parts[0], Join(parts[1..], sep), sep);
      assert [parts[0]] + parts[1..] == parts;
    }
  }

  /** A separator-free string splits into itself. */
  lemma {:induction false} SplitPiece(w: string, sep: char)
    requires sep !in w
    ensures Split(w, sep) == [w]
  {
    if w != [] {
      SplitPiece(w[1..], sep);
      assert [w[0]] + w[1..] == w;
    }
  }

  /** Splitting w + [sep] + t, where w has no separator. */
  lemma {:induction false} SplitConcat(w: string, t: string, sep: char)
    requires sep !in w
    ensures Split(w + [sep] + t, sep) == [w] + Split(t, sep)
  {
    if w == [] {
      assert w + [sep] + t == [sep] + t;
      assert ([sep] + t)[1..] == t;
    } else {
      SplitConcat(w[1..], t, sep);
      assert (w + [sep] + t)[1..] == w[1..] + [sep] + t;
      assert [w[0]] + w[1..] == w;
    }
  }

  /** Folding to lower case is idempotent. */
  lemma {:induction false} LowerLower(s: string)
    ensures Lower(Lower(s)) == Lower(s)
  {
    if s != [] {
      LowerLower(s[1..]);
    }
  }

  /** Upper-casing first does not change the lower-case form. */
  lemma {:induction false} LowerUpper(s: string)
    ensures Lower(Upper(s)) == Lower(s)
  {
    if s != [] {
      LowerUpper(s[1..]);
    }
  }

  /** Title-casing does not change the lower-case form. */
  lemma {:induction false} LowerTitleAfter(s: string, prevIsSeparator: bool)
    ensures Lower(TitleAfter(s, prevIsSeparator)) == Lower(s)
  {
    if s != [] {
      LowerTitleAfter(s[1..], IsSeparator(s[0]));
    }
  }

  /** Inside a word, title-casing leaves the characters alone. */
  lemma {:induction false} TitleInsideWord(s: string)
    requires forall i :: 0 <= i < |s| ==> !IsSeparator(s[i])
    ensures TitleAfter(s, false) == s
  {
    if s != [] {
      TitleInsideWord(s[1..]);
      assert [s[0]] + s[1..] == s;
    }
  }

  /**
   * The title case of one lower-case word is that word with its first letter
   * upper-cased: Title("return") == "Return".
   */
  lemma TitleOfLowerWord(w: string)
    requires |w| >= 1
    requires forall i :: 0 <= i < |w| ==> IsLowerAscii(w[i])
    ensures Title(w) == [UpperChar(w[0])] + w[1..]
  {
    TitleInsideWord(w[1..]);
  }
}
