/**
 * The avatar initials in the page header (client/src/components/layout/Header.tsx): the first
 * letters of the name's space-separated words, upper-cased and cut to two, or the first letter of
 * the email, or 'U'. Upper-casing is modelled for ASCII letters only.
 */
module HeaderInitials {
  import opened Wrappers
  import JsText
  import Gauge
  import Sequences

  /** `words.map(n => n[0]).join('')`: an empty word's `n[0]` is `undefined` and joins as ''. */
  function FirstChars(words: seq<string>): string {
    if words == [] then ""
    else (if words[0] == "" then "" else [words[0][0]]) + FirstChars(words[1..])
  }

  /**
   * The characters that start a word, found by one scan: a non-space character right after a
   * space, or at the start when `atStart` holds.
   */
  function WordStarts(s: string, atStart: bool): string {
    if s == [] then ""
    else if s[0] == ' ' then WordStarts(s[1..], true)
    else (if atStart then [s[0]] else "") + WordStarts(s[1..], false)
  }

  /**
   * Splitting at spaces and taking each word's first character picks exactly the word-start
   * characters of the scan, in order; runs of spaces add nothing. (The second half is the
   * induction hypothesis for the words after the first.)
   */
  lemma {:induction false} FirstCharsOfSplit(s: string)
    ensures FirstChars(JsText.Split(s, ' ')) == WordStarts(s, true)
    ensures FirstChars(JsText.Split(s, ' ')[1..]) == WordStarts(s, false)
  {
    if s != [] {
      FirstCharsOfSplit(s[1..]);
      var rest := JsText.Split(s[1..], ' ');
      if s[0] == ' ' {
        assert JsText.Split(s, ' ') == [""] + rest;
        assert JsText.Split(s, ' ')[1..] == rest;
      } else {
        var parts := JsText.Split(s, ' ');
        assert parts == [[s[0]] + rest[0]] + rest[1..];
        assert parts[1..] == rest[1..];
        assert FirstChars(parts) == [s[0]] + FirstChars(parts[1..]);
      }
    }
  }

  /** A string with a non-space character has at least one word start. */
  lemma {:induction false} WordStartsNonEmpty(s: string, i: nat)
    requires i < |s| && s[i] != ' '
    ensures WordStarts(s, true) != ""
  {
    if s[0] == ' ' {
      WordStartsNonEmpty(s[1..], i - 1);
    }
  }

  /** Only spaces: no word starts at all. */
  lemma {:induction false} WordStartsOfSpaces(s: string, atStart: bool)
    requires forall i | 0 <= i < |s| :: s[i] == ' '
    ensures WordStarts(s, atStart) == ""
  {
    if s != [] {
      WordStartsOfSpaces(s[1..], true);
    }
  }

  /** `.slice(0, 2)`. */
  function TakeTwo(s: string): string {
    if |s| <= 2 then s else s[..2]
  }

  /** `initials`. */
  function Initials(name: Option<string>, email: Option<string>): string {
    if Gauge.Present(name) then TakeTwo(JsText.ToUpper(FirstChars(JsText.Split(name.value, ' '))))
    else if email.Some? && email.value != "" then JsText.ToUpper([email.value[0]])
    else "U"
  }

  /**
   * With a name: the upper-cased first characters of its words, at most two, at least one when
   * the name has a non-space character and none when it is all spaces. Without a name: the
   * upper-cased first character of the email, or 'U' when there is no email either.
   */
  lemma InitialsSpec(name: Option<string>, email: Option<string>)
    ensures Gauge.Present(name) ==>
      && var starts := JsText.ToUpper(WordStarts(name.value, true));
      && |Initials(name, email)| <= 2
      && Initials(name, email) == starts[..if |starts| < 2 then |starts| else 2]
      && ((exists i | 0 <= i < |name.value| :: name.value[i] != ' ') <==> Initials(name, email) != "")
    ensures !Gauge.Present(name) && email.Some? && email.value != "" ==>
      Initials(name, email) == [JsText.ToUpperAscii(email.value[0])]
    ensures !Gauge.Present(name) && (email.None? || email.value == "") ==> Initials(name, email) == "U"
  {
    if Gauge.Present(name) {
      var s := name.value;
      FirstCharsOfSplit(s);
      var starts := JsText.ToUpper(WordStarts(s, true));
      assert Initials(name, email) == TakeTwo(starts);
      Sequences.Whole(starts);
      if exists i | 0 <= i < |s| :: s[i] != ' ' {
        var i :| 0 <= i < |s| && s[i] != ' ';
        WordStartsNonEmpty(s, i);
      } else {
        WordStartsOfSpaces(s, true);
      }
    }
  }
}
