/** The kebab-case to Title Case conversion of a page's base name: split on
    `-`, upper-case the first character of every segment, join with spaces. */
module Title {
  import opened Strings

  /** `toUpperCase` of one character, restricted to ASCII: `a`..`z` map to
      `A`..`Z`, every other character is left unchanged. */
  function Upper(c: char): (u: char)
    ensures !('a' <= u <= 'z')
    ensures u == c || ('a' <= c <= 'z' && u as int == c as int - 32)
  {
    if 'a' <= c <= 'z' then (c as int - 32) as char else c
  }

  /** `word.charAt(0).toUpperCase() + word.slice(1)`: an empty word stays empty. */
  function Capitalize(w: string): (r: string)
    ensures |r| == |w|
    ensures |w| > 0 ==> r[0] == Upper(w[0]) && r[1..] == w[1..]
  {
    if |w| == 0 then "" else [Upper(w[0])] + w[1..]
  }

  /** Every segment capitalized, order and number kept. */
  function CapitalizeAll(ws: seq<string>): (rs: seq<string>)
    ensures |rs| == |ws|
  {
    seq(|ws|, k requires 0 <= k < |ws| => Capitalize(ws[k]))
  }

  /** The sidebar title of a base name. */
  function TitleCase(name: string): string {
    Join(CapitalizeAll(Split(name, '-')), ' ')
  }

  /** Character-wise reading of the conversion, independent of split and join:
      a hyphen becomes a space, a character that starts a segment (first of
      the name, or right after a hyphen) is upper-cased, the rest is copied. */
  function TitleChar(name: string, i: nat): char
    requires i < |name|
  {
    if name[i] == '-' then ' '
    else if i == 0 || name[i - 1] == '-' then Upper(name[i])
    else name[i]
  }

  predicate TitleOf(name: string, text: string) {
    |text| == |name| && forall i :: 0 <= i < |name| ==> text[i] == TitleChar(name, i)
  }

  /** One hyphen-free segment: capitalizing it is the character-wise conversion. */
  lemma CapitalizeSegment(w: string)
    requires '-' !in w
    ensures TitleOf(w, Capitalize(w))
  {
  }

  /** Joining capitalized segments with spaces is the character-wise
      conversion of joining the segments with hyphens. */
  lemma {:induction false} JoinCapitalized(ws: seq<string>)
    requires |ws| >= 1
    requires forall k :: 0 <= k < |ws| ==> '-' !in ws[k]
    ensures TitleOf(Join(ws, '-'), Join(CapitalizeAll(ws), ' '))
    decreases |ws|
  {
    CapitalizeSegment(ws[0]);
    if |ws| > 1 {
      JoinCapitalized(ws[1..]);
      var w, n, t := ws[0], Join(ws[1..], '-'), Join(CapitalizeAll(ws[1..]), ' ');
      var cw := Capitalize(w);
      assert CapitalizeAll(ws)[1..] == CapitalizeAll(ws[1..]);
      var name, text := Join(ws, '-'), Join(CapitalizeAll(ws), ' ');
      assert name == w + ['-'] + n;
      assert text == cw + [' '] + t;
      forall i | 0 <= i < |name|
        ensures text[i] == TitleChar(name, i)
      {
        if i < |w| {
          assert name[i] == w[i] && text[i] == cw[i];
          assert i > 0 ==> name[i - 1] == w[i - 1];
          assert TitleChar(w, i) == TitleChar(name, i);
        } else if i > |w| {
          var j := i - |w| - 1;
          assert name[i] == n[j] && text[i] == t[j];
          assert j > 0 ==> name[i - 1] == n[j - 1];
          assert TitleChar(n, j) == TitleChar(name, i);
        }
      }
    }
  }

  /** The title is the character-wise conversion of the name: same length,
      hyphens turned into spaces, segment starts upper-cased, the rest kept. */
  lemma TitleCaseCharacterwise(name: string)
    ensures TitleOf(name, TitleCase(name))
  {
    SplitSegments(name, '-');
    JoinSplit(name, '-');
    JoinCapitalized(Split(name, '-'));
  }

  /** The title has exactly as many characters as the name. */
  lemma TitleCaseLength(name: string)
    ensures |TitleCase(name)| == |name|
  {
    TitleCaseCharacterwise(name);
  }

  /** No hyphen survives the conversion. */
  lemma TitleCaseNoHyphen(name: string)
    ensures '-' !in TitleCase(name)
  {
    TitleCaseCharacterwise(name);
    var text := TitleCase(name);
    forall i | 0 <= i < |text|
      ensures text[i] != '-'
    {
      assert text[i] == TitleChar(name, i);
    }
  }

  /** Every hyphen of the name becomes a space of the title; the name's own
      spaces are kept, and nothing else turns into a space. */
  lemma TitleCaseSpaces(name: string)
    ensures Count(TitleCase(name), ' ') == Count(name, '-') + Count(name, ' ')
  {
    TitleCaseCharacterwise(name);
    CountCorresponding(TitleCase(name), ' ', name, '-', ' ');
  }

  /** For a name without spaces, the title's space-separated words are
      exactly the name's hyphen-separated segments, each capitalized. */
  lemma TitleCaseSegments(name: string)
    requires ' ' !in name
    ensures Split(TitleCase(name), ' ') == CapitalizeAll(Split(name, '-'))
  {
    var ws := Split(name, '-');
    var cs := CapitalizeAll(ws);
    JoinSplit(name, '-');
    forall k | 0 <= k < |cs|
      ensures ' ' !in cs[k]
    {
      SegmentInJoin(ws, '-', k);
      assert ' ' !in ws[k];
    }
    SplitJoin(cs, ' ');
  }

  /** A name without hyphens is one segment: its title is the name capitalized. */
  lemma TitleCaseOneSegment(w: string)
    requires '-' !in w
    ensures TitleCase(w) == Capitalize(w)
  {
    SplitNoSeparator(w, '-');
    assert CapitalizeAll([w]) == [Capitalize(w)];
  }

  /** A two-segment name is titled by its two capitalized segments around one space. */
  lemma TitleCaseTwoSegments(a: string, b: string)
    requires '-' !in a && '-' !in b
    ensures TitleCase(a + "-" + b) == Capitalize(a) + " " + Capitalize(b)
  {
    SplitAfterSegment(a, '-', b);
    SplitNoSeparator(b, '-');
    assert a + "-" + b == a + ['-'] + b;
    assert Split(a + "-" + b, '-') == [a, b];
    var cs := CapitalizeAll([a, b]);
    assert cs == [Capitalize(a), Capitalize(b)];
    assert cs[1..] == [Capitalize(b)];
    assert Join(cs, ' ') == Capitalize(a) + [' '] + Capitalize(b);
  }

  /** The documented conversion: `getting-started` is titled `Getting Started`. */
  lemma TitleCaseGettingStarted(name: string)
    requires name == "getting-started"
    ensures TitleCase(name) == "Getting Started"
  {
    TitleCaseTwoSegments("getting", "started");
    assert "getting" + "-" + "started" == name;
    assert Upper('g') == 'G' && Capitalize("getting") == "Getting";
    assert Upper('s') == 'S' && Capitalize("started") == "Started";
  }

  /** Two adjacent hyphens leave an empty segment, which stays empty:
      `a--b` is titled `A  B`, with two spaces. */
  lemma TitleCaseEmptySegment()
    ensures TitleCase("a--b") == "A  B"
  {
    assert "a--b" == "a" + ['-'] + ("" + ['-'] + "b");
    SplitAfterSegment("", '-', "b");
    SplitAfterSegment("a", '-', "-b");
    SplitNoSeparator("b", '-');
    var ws := ["a", "", "b"];
    assert Upper('a') == 'A' && Capitalize("a") == "A";
    assert Upper('b') == 'B' && Capitalize("b") == "B";
    assert CapitalizeAll(ws) == ["A", "", "B"];
  }
}
