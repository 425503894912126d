/**
 * Text clean-up applied to a serialised feed document before it is written:
 * removal of characters XML 1.0 forbids (makeRSS_PRTIMES) and removal of
 * blank lines from the pretty-printed text (makeRSS_HatenaBookmark, makeRSS_PRTIMES).
 */
module XmlText {

  /** The character class [\x00-\x08\x0B\x0C\x0E-\x1F\x7F]. */
  predicate IsXmlControl(c: char) {
    var n := c as int;
    n <= 0x08 || n == 0x0B || n == 0x0C || (0x0E <= n <= 0x1F) || n == 0x7F
  }

  /** re.sub of that class with '': every such character is dropped. */
  function StripControl(s: string): (r: string)
    ensures |r| <= |s|
    ensures forall i :: 0 <= i < |r| ==> !IsXmlControl(r[i])
  {
    if s == [] then []
    else (if IsXmlControl(s[0]) then [] else [s[0]]) + StripControl(s[1..])
  }

  /** Stripping distributes over concatenation, so it keeps the other
      characters in their order and removes only the control ones. */
  lemma {:induction false} StripControlAppend(a: string, b: string)
    ensures StripControl(a + b) == StripControl(a) + StripControl(b)
  {
    if a != [] {
      assert (a + b)[1..] == a[1..] + b;
      StripControlAppend(a[1..], b);
    } else {
      assert a + b == b;
    }
  }

  lemma StripControlChar(c: char)
    ensures StripControl([c]) == if IsXmlControl(c) then [] else [c]
  {
  }

  /** A character survives exactly when it was there and is not a control one. */
  lemma {:induction false} StripControlMembers(s: string, c: char)
    ensures c in StripControl(s) <==> c in s && !IsXmlControl(c)
  {
    if s != [] {
      StripControlMembers(s[1..], c);
      assert s == [s[0]] + s[1..];
    }
  }

  /** A text without control characters is left as it is. */
  lemma {:induction false} StripControlClean(s: string)
    requires forall i :: 0 <= i < |s| ==> !IsXmlControl(s[i])
    ensures StripControl(s) == s
  {
    if s != [] {
      StripControlClean(s[1..]);
    }
  }

  lemma StripControlIdempotent(s: string)
    ensures StripControl(StripControl(s)) == StripControl(s)
  {
    StripControlClean(StripControl(s));
  }

  // ---------------------------------------------------------------------------

  /** str.isspace() for one character: the characters Python's str.strip() removes. */
  predicate IsSpace(c: char) {
    var n := c as int;
    (0x09 <= n <= 0x0D) || (0x1C <= n <= 0x20) || n == 0x85 || n == 0xA0 || n == 0x1680
    || (0x2000 <= n <= 0x200A) || n == 0x2028 || n == 0x2029 || n == 0x202F || n == 0x205F
    || n == 0x3000
  }

  /** s.strip() != '': the line holds some non-whitespace character. */
  predicate HasText(line: string) {
    exists i :: 0 <= i < |line| && !IsSpace(line[i])
  }

  /** [s for s in lines if s.strip()] */
  function StripBlankLines(lines: seq<string>): (r: seq<string>)
    ensures |r| <= |lines|
    ensures forall i :: 0 <= i < |r| ==> HasText(r[i])
  {
    if lines == [] then []
    else (if HasText(lines[0]) then [lines[0]] else []) + StripBlankLines(lines[1..])
  }

  /** Blank-line stripping distributes over concatenation (it keeps order). */
  lemma {:induction false} StripBlankLinesAppend(a: seq<string>, b: seq<string>)
    ensures StripBlankLines(a + b) == StripBlankLines(a) + StripBlankLines(b)
  {
    if a != [] {
      assert (a + b)[1..] == a[1..] + b;
      StripBlankLinesAppend(a[1..], b);
    } else {
      assert a + b == b;
    }
  }

  /** A line survives exactly when it was there and has text. */
  lemma {:induction false} StripBlankLinesMembers(lines: seq<string>, line: string)
    ensures line in StripBlankLines(lines) <==> line in lines && HasText(line)
  {
    if lines != [] {
      StripBlankLinesMembers(lines[1..], line);
      assert lines == [lines[0]] + lines[1..];
    }
  }
}
