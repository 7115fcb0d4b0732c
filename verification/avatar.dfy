/** The user avatar (`UserAvatar`): the initials shown when there is no picture. */
module Avatar {
  import opened Common
  import opened Strings

  /** `.map(word => word.charAt(0)).join('')`: the first character of every non-empty
      word, concatenated. */
  function FirstChars(words: seq<string>): (r: string)
    ensures |r| <= |words|
  {
    if |words| == 0 then []
    else (if |words[0]| > 0 then [words[0][0]] else []) + FirstChars(words[1..])
  }

  /** The reference reading: each non-space character that opens the text or follows
      a space, in order (`afterSpace` says whether the previous character was a
      space, or there was none). */
  function WordStarts(s: string, afterSpace: bool): string {
    if |s| == 0 then []
    else (if s[0] != ' ' && afterSpace then [s[0]] else []) + WordStarts(s[1..], s[0] == ' ')
  }

  lemma FirstCharsAppend(a: seq<string>, b: seq<string>)
    ensures FirstChars(a + b) == FirstChars(a) + FirstChars(b)
  {
    if |a| > 0 {
      assert (a + b)[0] == a[0] && (a + b)[1..] == a[1..] + b;
      FirstCharsAppend(a[1..], b);
    } else {
      assert a + b == b;
    }
  }

  /** Splitting on single spaces and taking first characters picks exactly the word
      starts; the pieces after the first one give the starts past the first character. */
  lemma {:induction false} FirstCharsAreWordStarts(s: string)
    ensures FirstChars(Split(s, ' ')) == WordStarts(s, true)
    ensures FirstChars(Split(s, ' ')[1..]) == WordStarts(s, false)
    decreases |s|
  {
    var parts := Split(s, ' ');
    if |s| > 0 {
      FirstCharsAreWordStarts(s[1..]);
      var rest := Split(s[1..], ' ');
      if s[0] == ' ' {
        assert parts == [""] + rest;
        assert parts[1..] == rest;
      } else {
        assert parts == [[s[0]] + rest[0]] + rest[1..];
        assert parts[1..] == rest[1..];
      }
      assert parts == [parts[0]] + parts[1..];
      FirstCharsAppend([parts[0]], parts[1..]);
    }
  }

  /** `getInitials`: the word starts, upper-cased, at most two. */
  function Initials(name: string): (r: string)
    ensures var starts := WordStarts(name, true);
      |r| == MinInt(2, |starts|) &&
      forall i :: 0 <= i < |r| ==> r[i] == UpperChar(starts[i])
  {
    FirstCharsAreWordStarts(name);
    var upper := Upper(FirstChars(Split(name, ' ')));
    if |upper| <= 2 then upper else upper[..2]
  }

  /** Three one-letter words: the first two letters, capitalised; the third is cut. */
  lemma InitialsExample()
    ensures Initials("a b c") == "AB"
  {
    assert WordStarts("c", true) == "c";
    assert WordStarts(" c", false) == "c";
    assert WordStarts("b c", true) == "bc";
    assert WordStarts(" b c", false) == "bc";
    assert WordStarts("a b c", true) == "abc";
    var r := Initials("a b c");
    assert UpperChar('a') == 'A' && UpperChar('b') == 'B';
    assert |r| == 2 && r[0] == 'A' && r[1] == 'B';
  }

  /** A name without a space yields its first letter alone. */
  lemma InitialsOneWord(c: char, rest: string)
    requires c != ' ' && forall i :: 0 <= i < |rest| ==> rest[i] != ' '
    ensures Initials([c] + rest) == [UpperChar(c)]
  {
    NoSpaceNoStarts(rest);
    assert ([c] + rest)[1..] == rest;
  }

  lemma {:induction false} NoSpaceNoStarts(s: string)
    requires forall i :: 0 <= i < |s| ==> s[i] != ' '
    ensures WordStarts(s, false) == ""
    decreases |s|
  {
    if |s| > 0 {
      NoSpaceNoStarts(s[1..]);
    }
  }

  /** What the avatar draws. */
  datatype AvatarContent = Picture(url: string) | InitialsText(text: string) | Icon

  /** The picture when a URL is loaded and has not failed; otherwise the initials of a
      non-empty username; otherwise the generic icon. */
  function Content(imageUrl: Option<string>, imageError: bool, username: string): (c: AvatarContent)
    ensures c.Picture? <==> imageUrl.Some? && imageUrl.value != "" && !imageError
    ensures c.InitialsText? <==> !c.Picture? && username != ""
    ensures c.InitialsText? ==> c.text == Initials(username) && |c.text| <= 2
  {
    if imageUrl.Some? && imageUrl.value != "" && !imageError then Picture(imageUrl.value)
    else if username != "" then InitialsText(Initials(username))
    else Icon
  }
}
