/**
 What `importGoogleCalendar` does with each fetched event: skip it when its
 lower-cased title carries the "[events]" tag or a personal keyword, and
 otherwise turn it into the five cells of an output row, the guests joined
 with ", ".
 */
module EventFilter {
  import opened Dates

  datatype Guest = Guest(email: string)

  /** An event as the calendar returns it, in the order of the fetched list. */
  datatype Event = Event(title: string, start: Date, description: string, location: string, guests: seq<Guest>)

  // ---------------------------------------------------------------------------
  // Strings

  /** ASCII lower-casing of one character. */
  function LowerChar(c: char): (r: char)
    ensures 'A' <= c <= 'Z' ==> 'a' <= r <= 'z' && r as int - c as int == 32
    ensures !('A' <= c <= 'Z') ==> r == c
  {
    if 'A' <= c <= 'Z' then (c as int + 32) as char else c
  }

  /** `toLowerCase()` on the ASCII letters: every character lowered in place. */
  function ToLowerAscii(s: string): (r: string)
    ensures |r| == |s|
    ensures forall i :: 0 <= i < |s| ==> r[i] == LowerChar(s[i])
  {
    if s == [] then [] else [LowerChar(s[0])] + ToLowerAscii(s[1..])
  }

  /** Lower-casing twice is lower-casing once. */
  lemma ToLowerIdempotent(s: string)
    ensures ToLowerAscii(ToLowerAscii(s)) == ToLowerAscii(s)
  {
    var t := ToLowerAscii(s);
    assert forall i :: 0 <= i < |t| ==> LowerChar(t[i]) == t[i];
  }

  predicate StartsWith(s: string, prefix: string) {
    |prefix| <= |s| && s[..|prefix|] == prefix
  }

  predicate OccursAt(s: string, sub: string, i: int) {
    0 <= i && i + |sub| <= |s| && s[i..i + |sub|] == sub
  }

  /** `s.includes(sub)`: whether `sub` occurs somewhere in `s`. */
  function Contains(s: string, sub: string): (b: bool)
    ensures b <==> exists i :: OccursAt(s, sub, i)
    decreases |s|
  {
    if |sub| > |s| then
      false
    else if s[..|sub|] == sub then
      assert OccursAt(s, sub, 0);
      true
    else
      var rest := Contains(s[1..], sub);
      assert forall i :: OccursAt(s[1..], sub, i) ==> OccursAt(s, sub, i + 1) by {
        forall i | OccursAt(s[1..], sub, i) ensures OccursAt(s, sub, i + 1) {
          assert s[1..][i..i + |sub|] == s[i + 1..i + 1 + |sub|];
        }
      }
      assert forall i :: OccursAt(s, sub, i) ==> OccursAt(s[1..], sub, i - 1) by {
        forall i | OccursAt(s, sub, i) ensures OccursAt(s[1..], sub, i - 1) {
          assert i != 0;
          assert s[1..][i - 1..i - 1 + |sub|] == s[i..i + |sub|];
        }
      }
      rest
  }

  /** Every character of an occurring string is a character of the string it occurs in. */
  lemma OccursHasChar(s: string, sub: string, i: int, j: int)
    requires OccursAt(s, sub, i) && 0 <= j < |sub|
    ensures sub[j] in s
  {
    assert s[i + j] == s[i..i + |sub|][j];
  }

  // ---------------------------------------------------------------------------
  // The skip test (dashboard-script.js lines 73-80)

  const TagPrefix: string := "[events]"

  const SkipWords: seq<string> := ["vacation", "apt", "appointment", "out of", "lunch", "day"]

  /** Whether the import skips an event with this title: its lower-cased form starts with the
      tag or includes one of the keywords. */
  predicate ShouldSkip(title: string) {
    var t := ToLowerAscii(title);
    StartsWith(t, TagPrefix) || exists k :: 0 <= k < |SkipWords| && Contains(t, SkipWords[k])
  }

  /** An event is skipped if and only if its lower-cased title starts with the tag
      or one of the keywords occurs in it. */
  lemma SkipIff(title: string)
    ensures ShouldSkip(title) <==>
      StartsWith(ToLowerAscii(title), TagPrefix) ||
      exists k, i :: 0 <= k < |SkipWords| && OccursAt(ToLowerAscii(title), SkipWords[k], i)
  {
    var t := ToLowerAscii(title);
    if exists k, i :: 0 <= k < |SkipWords| && OccursAt(t, SkipWords[k], i) {
      var k, i :| 0 <= k < |SkipWords| && OccursAt(t, SkipWords[k], i);
      assert Contains(t, SkipWords[k]);
    }
    if exists k :: 0 <= k < |SkipWords| && Contains(t, SkipWords[k]) {
      var k :| 0 <= k < |SkipWords| && Contains(t, SkipWords[k]);
      var i :| OccursAt(t, SkipWords[k], i);
    }
  }

  /** The test does not depend on the case of ASCII letters in the title. */
  lemma SkipIgnoresCase(title: string)
    ensures ShouldSkip(ToLowerAscii(title)) == ShouldSkip(title)
  {
    ToLowerIdempotent(title);
  }

  /** Any title tagged "[Events]", such as "[Events] Team Offsite", is skipped by the tag prefix. */
  lemma TaggedTitleSkipped(title: string, rest: string)
    requires title == "[Events]" + rest
    ensures ShouldSkip(title)
  {
    var t := ToLowerAscii(title);
    assert t[0] == LowerChar(title[0]) == LowerChar('[') == '[';
    assert t[1] == LowerChar(title[1]) == LowerChar('E') == 'e';
    assert t[2] == LowerChar(title[2]) == LowerChar('v') == 'v';
    assert t[3] == LowerChar(title[3]) == LowerChar('e') == 'e';
    assert t[4] == LowerChar(title[4]) == LowerChar('n') == 'n';
    assert t[5] == LowerChar(title[5]) == LowerChar('t') == 't';
    assert t[6] == LowerChar(title[6]) == LowerChar('s') == 's';
    assert t[7] == LowerChar(title[7]) == LowerChar(']') == ']';
    assert StartsWith(t, TagPrefix);
  }

  /** Any title opening with "Lunch", such as "Lunch with client", is skipped by "lunch". */
  lemma LunchTitleSkipped(title: string, rest: string)
    requires title == "Lunch" + rest
    ensures ShouldSkip(title)
  {
    var t := ToLowerAscii(title);
    assert t[0] == LowerChar(title[0]) == LowerChar('L') == 'l';
    assert t[1] == LowerChar(title[1]) == LowerChar('u') == 'u';
    assert t[2] == LowerChar(title[2]) == LowerChar('n') == 'n';
    assert t[3] == LowerChar(title[3]) == LowerChar('c') == 'c';
    assert t[4] == LowerChar(title[4]) == LowerChar('h') == 'h';
    assert OccursAt(t, SkipWords[4], 0);
  }

  /** A word cannot occur in a title that lacks one of its characters. */
  lemma AbsentCharExcludes(t: string, w: string, j: int)
    requires 0 <= j < |w| && w[j] !in t
    ensures !Contains(t, w)
  {
    if Contains(t, w) {
      var i :| OccursAt(t, w, i);
      OccursHasChar(t, w, i, j);
    }
  }

  /** A title is kept when its lower-cased form does not start with '[' and lacks the letters
      'v', 'p', 'f', 'h' and 'd', one of which each keyword needs. */
  lemma KeptWithoutKeyLetters(title: string)
    requires var t := ToLowerAscii(title);
      (t == [] || t[0] != '[') && 'v' !in t && 'p' !in t && 'f' !in t && 'h' !in t && 'd' !in t
    ensures !ShouldSkip(title)
  {
    var t := ToLowerAscii(title);
    forall k | 0 <= k < |SkipWords| ensures !Contains(t, SkipWords[k]) {
      // a position in each keyword holding one of the absent letters
      var j := [0, 1, 1, 5, 4, 0][k];
      AbsentCharExcludes(t, SkipWords[k], j);
    }
    assert !StartsWith(t, TagPrefix) by {
      if |TagPrefix| <= |t| {
        assert t[..|TagPrefix|][0] == t[0];
      }
    }
  }

  /** A lower-case letter is missing from the lowered string when neither it nor its
      upper-case form occurs in the original. */
  lemma LoweredLacks(s: string, c: char, upper: char)
    requires 'a' <= c <= 'z' && upper as int == c as int - 32 && c !in s && upper !in s
    ensures c !in ToLowerAscii(s)
  {
    var t := ToLowerAscii(s);
    forall i | 0 <= i < |t| ensures t[i] != c {
      assert t[i] == LowerChar(s[i]);
    }
  }

  /** The condition of KeptWithoutKeyLetters read off the title itself, in either case. */
  lemma KeptWithoutKeyLettersInTitle(title: string)
    requires title == [] || title[0] != '['
    requires 'v' !in title && 'V' !in title && 'p' !in title && 'P' !in title
    requires 'f' !in title && 'F' !in title && 'h' !in title && 'H' !in title
    requires 'd' !in title && 'D' !in title
    ensures !ShouldSkip(title)
  {
    var t := ToLowerAscii(title);
    if title != [] {
      assert t[0] == LowerChar(title[0]);
    }
    LoweredLacks(title, 'v', 'V');
    LoweredLacks(title, 'p', 'P');
    LoweredLacks(title, 'f', 'F');
    LoweredLacks(title, 'h', 'H');
    LoweredLacks(title, 'd', 'D');
    KeptWithoutKeyLetters(title);
  }

  /** The keyword test looks at substrings, not words: "apt" inside "laptop" skips the event,
      as for "Laptop setup". */
  lemma LaptopTitleSkipped(title: string, rest: string)
    requires title == "Laptop" + rest
    ensures ShouldSkip(title)
  {
    var t := ToLowerAscii(title);
    assert t[1] == LowerChar(title[1]) == LowerChar('a') == 'a';
    assert t[2] == LowerChar(title[2]) == LowerChar('p') == 'p';
    assert t[3] == LowerChar(title[3]) == LowerChar('t') == 't';
    assert OccursAt(t, SkipWords[1], 1);
  }

  // ---------------------------------------------------------------------------
  // Guests (dashboard-script.js lines 87-89)

  /** `getGuestList().map(guest => guest.getEmail())`. */
  function EmailsOf(guests: seq<Guest>): (r: seq<string>)
    ensures |r| == |guests|
    ensures forall i :: 0 <= i < |guests| ==> r[i] == guests[i].email
  {
    seq(|guests|, i requires 0 <= i < |guests| => guests[i].email)
  }

  function TotalLength(parts: seq<string>): nat {
    if parts == [] then 0 else |parts[0]| + TotalLength(parts[1..])
  }

  /** `join(", ")`: the parts with ", " between neighbours. */
  function JoinGuests(parts: seq<string>): string {
    if parts == [] then ""
    else if |parts| == 1 then parts[0]
    else parts[0] + ", " + JoinGuests(parts[1..])
  }

  /** No guests give the empty string; otherwise the joined string starts with the first address,
      ends with the last one (no trailing separator) and adds two characters per separator. */
  lemma {:induction false} JoinGuestsShape(parts: seq<string>)
    ensures parts == [] ==> JoinGuests(parts) == ""
    ensures parts != [] ==> |JoinGuests(parts)| == TotalLength(parts) + 2 * (|parts| - 1)
    ensures parts != [] ==> StartsWith(JoinGuests(parts), parts[0])
    ensures parts != [] ==>
      var r, last := JoinGuests(parts), parts[|parts| - 1];
      |last| <= |r| && r[|r| - |last|..] == last
  {
    if |parts| > 1 {
      var rest := JoinGuests(parts[1..]);
      JoinGuestsShape(parts[1..]);
      var last := parts[|parts| - 1];
      assert parts[1..][|parts[1..]| - 1] == last;
      var r := parts[0] + ", " + rest;
      assert r[..|parts[0]|] == parts[0];
      assert r[|r| - |last|..] == rest[|rest| - |last|..];
    }
  }

  /** The index of the first comma of `s`, or `|s|` when there is none. */
  function IndexOfComma(s: string): (i: nat)
    ensures i <= |s|
    ensures i < |s| ==> s[i] == ','
    ensures forall j :: 0 <= j < i ==> s[j] != ','
  {
    if s == [] then 0
    else if s[0] == ',' then 0
    else 1 + IndexOfComma(s[1..])
  }

  /** Splits a joined guests cell back into the addresses, at each comma and the space after it. */
  function SplitGuests(s: string): (r: seq<string>)
    ensures |r| >= 1
    decreases |s|
  {
    var i := IndexOfComma(s);
    if i == |s| then [s]
    else
      var after := s[i + 1..];
      [s[..i]] + SplitGuests(if after != [] && after[0] == ' ' then after[1..] else after)
  }

  /** Splitting a comma-free address followed by ", " peels off exactly that address. */
  lemma SplitCons(x: string, rest: string)
    requires ',' !in x
    ensures SplitGuests(x + ", " + rest) == [x] + SplitGuests(rest)
  {
    var s := x + ", " + rest;
    var i := IndexOfComma(s);
    assert s[|x|] == ',';
    assert i == |x|;
    assert s[..i] == x;
    assert s[i + 1..] == " " + rest;
  }

  /** A string without commas splits into itself alone. */
  lemma SplitNoComma(x: string)
    requires ',' !in x
    ensures SplitGuests(x) == [x]
  {
  }

  /** Joining addresses without commas can be undone: no separator is lost or added. */
  lemma {:induction false} SplitJoin(parts: seq<string>)
    requires |parts| >= 1
    requires forall k :: 0 <= k < |parts| ==> ',' !in parts[k]
    ensures SplitGuests(JoinGuests(parts)) == parts
  {
    if |parts| == 1 {
      SplitNoComma(parts[0]);
    } else {
      var rest := parts[1..];
      assert JoinGuests(parts) == parts[0] + ", " + JoinGuests(rest);
      SplitCons(parts[0], JoinGuests(rest));
      SplitJoin(rest);
      assert parts == [parts[0]] + rest;
    }
  }

  lemma TwoGuestsJoined()
    ensures JoinGuests(EmailsOf([Guest("a@x.com"), Guest("b@x.com")])) == "a@x.com, b@x.com"
  {
    assert EmailsOf([Guest("a@x.com"), Guest("b@x.com")]) == ["a@x.com", "b@x.com"];
  }

  // ---------------------------------------------------------------------------
  // The retained events (dashboard-script.js lines 68-112)

  /** The fetched events that the import keeps, in their original order. */
  function Retained(events: seq<Event>): (r: seq<Event>)
    ensures |r| <= |events|
    ensures forall k :: 0 <= k < |r| ==> !ShouldSkip(r[k].title) && r[k] in events
    ensures forall e :: e in events && !ShouldSkip(e.title) ==> e in r
  {
    if events == [] then []
    else
      var last := events[|events| - 1];
      var front := Retained(events[..|events| - 1]);
      assert forall e :: e in events ==> e in events[..|events| - 1] || e == last;
      if ShouldSkip(last.title) then front else front + [last]
  }

  /** Keeping the events of two consecutive stretches keeps those of their concatenation. */
  lemma {:induction false} RetainedConcat(a: seq<Event>, b: seq<Event>)
    ensures Retained(a + b) == Retained(a) + Retained(b)
    decreases |b|
  {
    if b == [] {
      assert a + b == a;
    } else {
      var b' := b[..|b| - 1];
      assert (a + b)[..|a + b| - 1] == a + b';
      RetainedConcat(a, b');
    }
  }

  /** A single kept event keeps itself. */
  lemma RetainedSingle(e: Event)
    requires !ShouldSkip(e.title)
    ensures Retained([e]) == [e]
  {
    assert [e][..0] == [];
  }

  /** No gaps: a kept event at index i of the fetched list is the kept event whose position
      is the number of kept events before it. */
  lemma RetainedPosition(events: seq<Event>, i: int)
    requires 0 <= i < |events| && !ShouldSkip(events[i].title)
    ensures |Retained(events[..i])| < |Retained(events)|
    ensures Retained(events)[|Retained(events[..i])|] == events[i]
  {
    var before, e, after := events[..i], events[i], events[i + 1..];
    assert events == before + ([e] + after);
    RetainedConcat(before, [e] + after);
    RetainedConcat([e], after);
    RetainedSingle(e);
    assert Retained(events) == Retained(before) + ([e] + Retained(after));
  }
}
