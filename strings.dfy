/** The Python `str` operations the generator uses, restricted to ASCII case
    mapping: `lower`, `replace` of one character, `title`, `split` on one
    character, `rfind`, the `stem` of a file name, and the ordering `<`. */
module Strings {

  predicate IsUpperAscii(c: char) { 'A' <= c <= 'Z' }

  predicate IsLowerAscii(c: char) { 'a' <= c <= 'z' }

  /** A character that has an upper- and a lower-case form. */
  predicate IsCased(c: char) { IsUpperAscii(c) || IsLowerAscii(c) }

  function ToLowerChar(c: char): char
  {
    if IsUpperAscii(c) then (c as int + 32) as char else c
  }

  function ToUpperChar(c: char): char
  {
    if IsLowerAscii(c) then (c as int - 32) as char else c
  }

  /** `s.lower()` */
  function Lower(s: string): (r: string)
    ensures |r| == |s|
    ensures forall i :: 0 <= i < |s| ==> !IsUpperAscii(r[i])
    ensures forall i :: 0 <= i < |s| && !IsUpperAscii(s[i]) ==> r[i] == s[i]
    ensures forall i :: 0 <= i < |s| && IsUpperAscii(s[i]) ==> IsLowerAscii(r[i]) && ToUpperChar(r[i]) == s[i]
  {
    seq(|s|, i requires 0 <= i < |s| => ToLowerChar(s[i]))
  }

  /** `s.replace(from, to)` for one-character `from` and `to`. */
  function ReplaceChar(s: string, from: char, to: char): (r: string)
    ensures |r| == |s|
    ensures from != to ==> from !in r
    ensures forall i :: 0 <= i < |s| && s[i] == from ==> r[i] == to
    ensures forall i :: 0 <= i < |s| && s[i] != from ==> r[i] == s[i]
  {
    seq(|s|, i requires 0 <= i < |s| => if s[i] == from then to else s[i])
  }

  /** The loop of `str.title()`: a character that follows a cased character is
      lower-cased, any other is upper-cased. */
  function TitleFrom(s: string, previousIsCased: bool): (r: string)
    ensures |r| == |s|
    decreases |s|
  {
    if |s| == 0 then ""
    else
      [if previousIsCased then ToLowerChar(s[0]) else ToUpperChar(s[0])]
      + TitleFrom(s[1..], IsCased(s[0]))
  }

  /** `s.title()` */
  function Title(s: string): (r: string)
    ensures |r| == |s|
    ensures |s| > 0 ==> r[0] == ToUpperChar(s[0])
  {
    TitleFrom(s, false)
  }

  predicate IsLowerWord(w: string)
  {
    forall i :: 0 <= i < |w| ==> IsLowerAscii(w[i])
  }

  /** Inside a word, title-casing leaves lower-case letters alone. */
  lemma {:induction false} TitleFromInsideWord(w: string)
    requires IsLowerWord(w)
    ensures TitleFrom(w, true) == w
    decreases |w|
  {
    if |w| > 0 {
      TitleFromInsideWord(w[1..]);
    }
  }

  /** Title-casing a lower-case word capitalises its first letter and
      keeps the rest. */
  lemma {:induction false} TitleOfLowerWord(w: string)
    requires |w| > 0 && IsLowerWord(w)
    ensures Title(w) == [ToUpperChar(w[0])] + w[1..]
    ensures IsUpperAscii(Title(w)[0])
  {
    TitleFromInsideWord(w[1..]);
  }

  /** `s.split(sep)`: the maximal runs between separators, an empty run
      where two separators meet or at either end. */
  function Split(s: string, sep: char): (parts: seq<string>)
    ensures |parts| >= 1
    ensures forall k :: 0 <= k < |parts| ==> sep !in parts[k]
    decreases |s|
  {
    if |s| == 0 then [""]
    else
      var rest := Split(s[1..], sep);
      if s[0] == sep then [""] + rest
      else [[s[0]] + rest[0]] + rest[1..]
  }

  /** `sep.join(parts)` */
  function Join(parts: seq<string>, sep: char): string
    requires |parts| >= 1
    decreases |parts|
  {
    if |parts| == 1 then parts[0] else parts[0] + [sep] + Join(parts[1..], sep)
  }

  function Last<T>(s: seq<T>): T
    requires |s| > 0
  {
    s[|s| - 1]
  }

  /** Joining the parts of a split with its separator gives back the string. */
  lemma {:induction false} JoinSplit(s: string, sep: char)
    ensures Join(Split(s, sep), sep) == s
    decreases |s|
  {
    if |s| > 0 {
      var rest := Split(s[1..], sep);
      JoinSplit(s[1..], sep);
      if s[0] == sep {
        assert Split(s, sep)[1..] == rest;
      } else {
        var parts := Split(s, sep);
        if |rest| == 1 {
          assert parts == [[s[0]] + rest[0]];
        } else {
          assert parts[1..] == rest[1..];
          assert Join(rest, sep) == rest[0] + [sep] + Join(rest[1..], sep);
        }
      }
    }
  }

  /** A string without the separator splits into itself alone. */
  lemma {:induction false} SplitWithoutSeparator(s: string, sep: char)
    requires sep !in s
    ensures Split(s, sep) == [s]
    decreases |s|
  {
    if |s| > 0 {
      assert sep !in s[1..];
      SplitWithoutSeparator(s[1..], sep);
      assert [s[0]] + s[1..] == s;
    }
  }

  /** Splitting at a separator splits the two sides independently. */
  lemma {:induction false} SplitAtSeparator(a: string, b: string, sep: char)
    ensures Split(a + [sep] + b, sep) == Split(a, sep) + Split(b, sep)
    decreases |a|
  {
    if |a| == 0 {
      assert a + [sep] + b == [sep] + b;
      assert ([sep] + b)[1..] == b;
    } else {
      assert (a + [sep] + b)[1..] == a[1..] + [sep] + b;
      SplitAtSeparator(a[1..], b, sep);
    }
  }

  /** The last segment of `a + sep + b` is `b` when `b` holds no separator. */
  lemma LastSegment(a: string, b: string, sep: char)
    requires sep !in b
    ensures Last(Split(a + [sep] + b, sep)) == b
  {
    SplitAtSeparator(a, b, sep);
    SplitWithoutSeparator(b, sep);
  }

  /** `s.rfind(c)`: the index of the last occurrence of `c`, or -1. */
  function RFind(s: string, c: char): (i: int)
    ensures -1 <= i < |s|
    ensures i == -1 <==> c !in s
    ensures i >= 0 ==> s[i] == c && c !in s[i + 1..]
    decreases |s|
  {
    if |s| == 0 then -1
    else if s[|s| - 1] == c then |s| - 1
    else
      assert s[..|s| - 1] + [s[|s| - 1]] == s;
      RFind(s[..|s| - 1], c)
  }

  /** `PurePath(name).stem`: the name without its final suffix; a name whose
      last dot is its first or its last character is its own stem. */
  function Stem(name: string): (r: string)
    ensures r == name || (0 < |r| < |name| - 1 && r == name[..|r|] && name[|r|] == '.' && '.' !in name[|r| + 1..])
  {
    var i := RFind(name, '.');
    if 0 < i < |name| - 1 then name[..i] else name
  }

  /** The stem drops exactly a final `.ext` whose `ext` is non-empty and
      dot-free, when something precedes it. */
  lemma StemDropsExtension(p: string, ext: string)
    requires |p| > 0 && |ext| > 0 && '.' !in ext
    ensures Stem(p + "." + ext) == p
  {
    var name := p + "." + ext;
    var i := RFind(name, '.');
    assert name[|p|] == '.';
    assert name[|p| + 1..] == ext;
    assert name[..|p|] == p;
  }

  /** Python's `a < b` on strings: lexicographic order by code point. */
  predicate Less(a: string, b: string)
    decreases |a|
  {
    if |b| == 0 then false
    else if |a| == 0 then true
    else if a[0] != b[0] then a[0] < b[0]
    else Less(a[1..], b[1..])
  }

  lemma {:induction false} LessIrreflexive(a: string)
    ensures !Less(a, a)
    decreases |a|
  {
    if |a| > 0 {
      LessIrreflexive(a[1..]);
    }
  }

  lemma {:induction false} LessTransitive(a: string, b: string, c: string)
    requires Less(a, b) && Less(b, c)
    ensures Less(a, c)
    decreases |a|
  {
    if |a| > 0 && a[0] == b[0] && b[0] == c[0] {
      LessTransitive(a[1..], b[1..], c[1..]);
    }
  }

  lemma {:induction false} LessTotal(a: string, b: string)
    requires a != b
    ensures Less(a, b) || Less(b, a)
    decreases |a|
  {
    if |a| > 0 && |b| > 0 && a[0] == b[0] {
      assert a == [a[0]] + a[1..] && b == [b[0]] + b[1..];
      LessTotal(a[1..], b[1..]);
    }
  }

  lemma LessAsymmetric(a: string, b: string)
    requires Less(a, b)
    ensures !Less(b, a)
  {
    if Less(b, a) {
      LessTransitive(a, b, a);
      LessIrreflexive(a);
    }
  }

  /** "Not after" (`>=`) is transitive too. */
  lemma NotLessTransitive(a: string, b: string, c: string)
    requires !Less(a, b) && !Less(b, c)
    ensures !Less(a, c)
  {
    if Less(a, c) {
      if a == b {
      } else if b == c {
      } else {
        LessTotal(a, b);
        LessTotal(b, c);
        LessTransitive(c, b, a);
        LessAsymmetric(a, c);
      }
    }
  }

  /** Comparing two concatenations whose first parts have the same length
      compares the first parts, then the second parts. */
  lemma {:induction false} LessConcat(a1: string, a2: string, b1: string, b2: string)
    requires |a1| == |b1|
    ensures Less(a1 + a2, b1 + b2) <==> Less(a1, b1) || (a1 == b1 && Less(a2, b2))
    decreases |a1|
  {
    if |a1| == 0 {
      assert a1 + a2 == a2 && b1 + b2 == b2;
    } else {
      assert (a1 + a2)[1..] == a1[1..] + a2;
      assert (b1 + b2)[1..] == b1[1..] + b2;
      LessConcat(a1[1..], a2, b1[1..], b2);
      if a1[0] == b1[0] {
        assert a1 == b1 <==> a1[1..] == b1[1..] by {
          assert a1 == [a1[0]] + a1[1..] && b1 == [b1[0]] + b1[1..];
        }
      }
    }
  }

  /** At the first position where `a` and `b` differ, `a` holds the smaller
      character. */
  predicate FirstDifferenceSmaller(a: string, b: string)
  {
    exists k :: 0 <= k < |a| && k < |b| && a[..k] == b[..k] && a[k] < b[k]
  }

  /** A proper prefix, with the same first character put in front of both. */
  lemma PrefixCons(c: char, a: string, b: string)
    ensures (|[c] + a| < |[c] + b| && [c] + a == ([c] + b)[..|[c] + a|]) <==> (|a| < |b| && a == b[..|a|])
  {
    if |a| < |b| {
      assert ([c] + b)[..|[c] + a|] == [c] + b[..|a|];
      if [c] + a == [c] + b[..|a|] {
        assert a == ([c] + a)[1..] == ([c] + b[..|a|])[1..] == b[..|a|];
      }
    }
  }

  /** A first difference of `a` and `b` is one of `c + a` and `c + b`. */
  lemma FirstDifferenceConsRight(c: char, a: string, b: string)
    requires FirstDifferenceSmaller(a, b)
    ensures FirstDifferenceSmaller([c] + a, [c] + b)
  {
    var k :| 0 <= k < |a| && k < |b| && a[..k] == b[..k] && a[k] < b[k];
    var ca, cb := [c] + a, [c] + b;
    assert ca[..k + 1] == [c] + a[..k] && cb[..k + 1] == [c] + b[..k];
    assert ca[k + 1] == a[k] && cb[k + 1] == b[k];
  }

  /** A first difference of `c + a` and `c + b` is one of `a` and `b`. */
  lemma FirstDifferenceConsLeft(c: char, a: string, b: string)
    requires FirstDifferenceSmaller([c] + a, [c] + b)
    ensures FirstDifferenceSmaller(a, b)
  {
    var ca, cb := [c] + a, [c] + b;
    var k :| 0 <= k < |ca| && k < |cb| && ca[..k] == cb[..k] && ca[k] < cb[k];
    assert k > 0;
    assert ca[..k] == [c] + a[..k - 1] && cb[..k] == [c] + b[..k - 1];
    assert a[..k - 1] == ca[..k][1..] == cb[..k][1..] == b[..k - 1];
    assert a[k - 1] == ca[k] && b[k - 1] == cb[k];
  }

  /** `a < b` exactly when `a` is a proper prefix of `b`, or at the first
      position where they differ `a` holds the smaller character. */
  lemma {:induction false} LessIsLexicographic(a: string, b: string)
    ensures Less(a, b) <==> (|a| < |b| && a == b[..|a|]) || FirstDifferenceSmaller(a, b)
    decreases |a|
  {
    if |a| == 0 || |b| == 0 {
    } else if a[0] != b[0] {
      assert a[..0] == b[..0];
    } else {
      LessIsLexicographic(a[1..], b[1..]);
      assert a == [a[0]] + a[1..] && b == [a[0]] + b[1..];
      PrefixCons(a[0], a[1..], b[1..]);
      if FirstDifferenceSmaller(a[1..], b[1..]) {
        FirstDifferenceConsRight(a[0], a[1..], b[1..]);
      }
      if FirstDifferenceSmaller(a, b) {
        FirstDifferenceConsLeft(a[0], a[1..], b[1..]);
      }
    }
  }
}
