/**
 * `EmployeeList`: the employees table. Each row shows an avatar with the employee's initials,
 * taken from the space-separated pieces of the name.
 */
module EmployeeList {
  import opened Text

  /** `n[0]` for each piece, where an empty piece contributes nothing, joined together. */
  function FirstChars(pieces: seq<string>): string
    decreases |pieces|
  {
    if |pieces| == 0 then []
    else (if |pieces[0]| == 0 then [] else [pieces[0][0]]) + FirstChars(pieces[1..])
  }

  /**
   * The characters that start a word: every character other than a space that comes first or
   * right after a space. `atStart` says whether the previous character was a space (or there was none).
   */
  function WordStarts(s: string, atStart: bool): (r: string)
    ensures ' ' !in r
    ensures |r| <= |s|
    decreases |s|
  {
    if |s| == 0 then []
    else if s[0] == ' ' then WordStarts(s[1..], true)
    else (if atStart then [s[0]] else []) + WordStarts(s[1..], false)
  }

  /** The pieces of `split(' ')` begin exactly at the word starts. */
  lemma {:induction false} FirstCharsAreWordStarts(s: string)
    ensures FirstChars(Split(s, ' ')) == WordStarts(s, true)
    ensures FirstChars(Split(s, ' ')[1..]) == WordStarts(s, false)
    decreases |s|
  {
    if |s| > 0 {
      var rest := Split(s[1..], ' ');
      FirstCharsAreWordStarts(s[1..]);
      if s[0] == ' ' {
        assert ([[]] + rest)[1..] == rest;
      } else {
        var first := [s[0]] + rest[0];
        assert ([first] + rest[1..])[1..] == rest[1..];
      }
    }
  }

  /** `getInitials`: the upper-cased first characters of the pieces, at most two of them. */
  function Initials(name: string): (r: string)
    ensures |r| <= 2
    ensures |r| == if |WordStarts(name, true)| < 2 then |WordStarts(name, true)| else 2
    ensures forall i :: 0 <= i < |r| ==> r[i] == UpperChar(WordStarts(name, true)[i])
  {
    FirstCharsAreWordStarts(name);
    var joined := Upper(FirstChars(Split(name, ' ')));
    if |joined| <= 2 then joined else joined[..2]
  }

  /** A run of characters without a space adds no word start when it continues a word. */
  lemma {:induction false} WordContinues(w: string, rest: string)
    requires ' ' !in w
    ensures WordStarts(w + rest, false) == WordStarts(rest, false)
    decreases |w|
  {
    if |w| == 0 {
      assert w + rest == rest;
    } else {
      assert w[0] in w;
      assert (w + rest)[0] == w[0] != ' ';
      assert (w + rest)[1..] == w[1..] + rest;
      WordContinues(w[1..], rest);
    }
  }

  /** A space before the name changes nothing: empty pieces contribute no letter. */
  lemma LeadingSpaceIgnored(s: string)
    ensures Initials([' '] + s) == Initials(s)
  {
    assert ([' '] + s)[1..] == s;
    assert WordStarts([' '] + s, true) == WordStarts(s, true);
  }

  /** An empty name has no initials. */
  lemma EmptyNameNoInitials()
    ensures Initials("") == ""
  {
  }

  /** A single word, one containing tabs or other whitespace but no space included, gives one letter. */
  lemma SingleWordOneLetter(w: string)
    requires |w| > 0 && ' ' !in w
    ensures Initials(w) == [UpperChar(w[0])]
  {
    assert w == [w[0]] + w[1..];
    WordContinues(w[1..], []);
    assert w[1..] + [] == w[1..];
    assert WordStarts(w, true) == [w[0]];
  }

  /** Two words separated by one space give the upper-cased first letter of each. */
  lemma TwoWordsTwoLetters(a: string, b: string)
    requires |a| > 0 && ' ' !in a && |b| > 0 && ' ' !in b
    ensures Initials(a + [' '] + b) == [UpperChar(a[0]), UpperChar(b[0])]
  {
    var s := a + [' '] + b;
    assert s[1..] == a[1..] + ([' '] + b);
    WordContinues(a[1..], [' '] + b);
    assert ([' '] + b)[1..] == b;
    assert b == [b[0]] + b[1..];
    WordContinues(b[1..], []);
    assert b[1..] + [] == b[1..];
    assert WordStarts(b, true) == [b[0]];
    assert WordStarts(s, true) == [a[0], b[0]];
  }
}
