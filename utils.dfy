/** String helpers shared by the built-in validators: joining a list of
    items for a message, and deleting substrings from an input before it is
    classified. Strings are sequences of characters. */
module Utils {

  /** The separator that joins items in a message. */
  const Separator: string := ", "

  /** Sum of the lengths of the items. */
  function TotalLength(items: seq<string>): nat
  {
    if items == [] then 0 else |items[0]| + TotalLength(items[1..])
  }

  /** `", ".join(items)`: the items in order, each kept verbatim, with one
      separator between consecutive items and none at either end. */
  function ListAsStr(items: seq<string>): (r: string)
    ensures |items| >= 1 ==> |r| == TotalLength(items) + 2 * (|items| - 1)
    ensures |items| >= 1 ==> items[0] <= r
  {
    if |items| == 0 then ""
    else if |items| == 1 then items[0]
    else items[0] + Separator + ListAsStr(items[1..])
  }

  lemma ListAsStrEmptyAndSingle(x: string)
    ensures ListAsStr([]) == ""
    ensures ListAsStr([x]) == x
  {
  }

  /** Joining is the same from either end: appending an item appends one
      separator and the item. */
  lemma {:induction false} ListAsStrSnoc(items: seq<string>, x: string)
    requires |items| >= 1
    ensures ListAsStr(items + [x]) == ListAsStr(items) + Separator + x
  {
    if |items| == 1 {
      assert items + [x] == [items[0], x];
    } else {
      assert (items + [x])[1..] == items[1..] + [x];
      ListAsStrSnoc(items[1..], x);
    }
  }

  /** True when `x` contains the separator. */
  predicate ContainsSeparator(x: string)
  {
    exists i :: 0 <= i < |x| - 1 && x[i] == ',' && x[i + 1] == ' '
  }

  lemma SeparatorInTail(x: string)
    requires |x| >= 1
    ensures ContainsSeparator(x[1..]) ==> ContainsSeparator(x)
  {
    if ContainsSeparator(x[1..]) {
      var i :| 0 <= i < |x[1..]| - 1 && x[1..][i] == ',' && x[1..][i + 1] == ' ';
      assert x[i + 1] == ',' && x[i + 2] == ' ';
    }
  }

  /** `s.split(", ")`: cut at each leftmost, non-overlapping separator. */
  function SplitOnSeparator(s: string): (r: seq<string>)
    ensures |r| >= 1
    decreases |s|
  {
    if |s| < 2 then [s]
    else if s[..2] == Separator then [""] + SplitOnSeparator(s[2..])
    else
      var rest := SplitOnSeparator(s[1..]);
      [[s[0]] + rest[0]] + rest[1..]
  }

  lemma {:induction false} SplitLeadingItem(x: string, t: string)
    requires !ContainsSeparator(x)
    ensures SplitOnSeparator(x + Separator + t) == [x] + SplitOnSeparator(t)
    decreases |x|
  {
    var s := x + Separator + t;
    if x == [] {
      assert s[..2] == Separator;
      assert s[2..] == t;
    } else {
      var x' := x[1..];
      SeparatorInTail(x);
      assert s[1..] == x' + Separator + t;
      if x' == [] {
        assert s[1] == ',';
      } else {
        assert s[1] == x[1];
        assert !(x[0] == ',' && x[1] == ' ');
      }
      assert s[..2] != Separator;
      SplitLeadingItem(x', t);
      assert [x[0]] + x' == x;
    }
  }

  lemma {:induction false} SplitSingleItem(x: string)
    requires !ContainsSeparator(x)
    ensures SplitOnSeparator(x) == [x]
    decreases |x|
  {
    if |x| >= 2 {
      var x' := x[1..];
      SeparatorInTail(x);
      assert !(x[0] == ',' && x[1] == ' ');
      assert x[..2] != Separator;
      SplitSingleItem(x');
      assert [x[0]] + x' == x;
    }
  }

  /** Splitting a joined list on the separator gives the items back, as long
      as no item contains the separator itself. */
  lemma {:induction false} SplitListAsStr(items: seq<string>)
    requires |items| >= 1
    requires forall i :: 0 <= i < |items| ==> !ContainsSeparator(items[i])
    ensures SplitOnSeparator(ListAsStr(items)) == items
  {
    if |items| == 1 {
      SplitSingleItem(items[0]);
    } else {
      SplitListAsStr(items[1..]);
      SplitLeadingItem(items[0], ListAsStr(items[1..]));
    }
  }

  lemma ListAsStrExamples()
    ensures ListAsStr(["foo"]) == "foo"
    ensures ListAsStr([".12", "xyz"]) == ".12, xyz"
    ensures ListAsStr(["a", "b", "100", "   "]) == "a, b, 100,    "
  {
  }

  /** `sub` occurs somewhere in `s` (the empty string occurs everywhere). */
  predicate Occurs(sub: string, s: string)
  {
    exists i :: 0 <= i <= |s| && sub <= s[i..]
  }

  /** `s.replace(sub, "")`: scanning from the left, every occurrence of `sub`
      that does not overlap an earlier removed one is deleted. Replacing the
      empty string leaves `s` as it is. */
  function Replace(s: string, sub: string): (r: string)
    ensures |r| <= |s|
    ensures forall c :: c in r ==> c in s
    decreases |s|
  {
    if sub == [] || |s| < |sub| then s
    else if s[..|sub|] == sub then Replace(s[|sub|..], sub)
    else [s[0]] + Replace(s[1..], sub)
  }

  lemma OccursInTail(sub: string, s: string)
    requires |s| >= 1
    ensures Occurs(sub, s[1..]) ==> Occurs(sub, s)
  {
    if Occurs(sub, s[1..]) {
      var i :| 0 <= i <= |s[1..]| && sub <= s[1..][i..];
      assert s[1..][i..] == s[i + 1..];
    }
  }

  /** Deleting a substring that does not occur changes nothing. */
  lemma {:induction false} ReplaceAbsent(s: string, sub: string)
    requires !Occurs(sub, s)
    ensures Replace(s, sub) == s
    decreases |s|
  {
    assert Occurs([], s) by { assert [] <= s[0..]; }
    if |s| >= |sub| {
      assert s[..|sub|] != sub by { assert !(sub <= s[0..]); }
      OccursInTail(sub, s);
      ReplaceAbsent(s[1..], sub);
      assert [s[0]] + s[1..] == s;
    }
  }

  /** `s` without the characters in `drop`, the others kept in order. */
  function Keep(s: string, drop: set<char>): (r: string)
    ensures |r| <= |s|
  {
    if s == [] then []
    else (if s[0] in drop then [] else [s[0]]) + Keep(s[1..], drop)
  }

  lemma {:induction false} KeepMembers(s: string, drop: set<char>, c: char)
    ensures c in Keep(s, drop) <==> c in s && c !in drop
  {
    if s != [] {
      KeepMembers(s[1..], drop, c);
      assert c in s <==> c == s[0] || c in s[1..];
    }
  }

  /** Deleting a one-character string deletes exactly that character. */
  lemma {:induction false} ReplaceOneChar(s: string, c: char)
    ensures Replace(s, [c]) == Keep(s, {c})
  {
    if s != [] {
      ReplaceOneChar(s[1..], c);
      if s[0] == c {
        assert s[..1] == [c];
      } else {
        assert s[..1] != [c];
      }
    }
  }

  lemma {:induction false} KeepTwice(s: string, a: set<char>, b: set<char>)
    ensures Keep(Keep(s, a), b) == Keep(s, a + b)
  {
    if s != [] {
      KeepTwice(s[1..], a, b);
      var rest := Keep(s[1..], a);
      if s[0] in a {
        assert Keep(s, a) == rest;
        assert s[0] in a + b;
      } else {
        var k := Keep(s, a);
        assert k == [s[0]] + rest;
        assert k[0] == s[0] && k[1..] == rest;
        assert s[0] in b <==> s[0] in a + b;
      }
    }
  }

  /** `remove_chars(string, *chars)` as a specification: each argument,
      from first to last, is deleted from what the previous ones left. */
  function Stripped(s: string, chars: seq<string>): (r: string)
    ensures |r| <= |s|
    ensures forall c :: c in r ==> c in s
    decreases |chars|
  {
    if chars == [] then s
    else Replace(Stripped(s, chars[..|chars| - 1]), chars[|chars| - 1])
  }

  /** The loop of `remove_chars`: reassign the string once per argument. */
  method RemoveChars(s: string, chars: seq<string>) returns (r: string)
    ensures r == Stripped(s, chars)
  {
    r := s;
    for i := 0 to |chars|
      invariant r == Stripped(s, chars[..i])
    {
      assert chars[..i + 1][..i] == chars[..i];
      r := Replace(r, chars[i]);
    }
    assert chars[..|chars|] == chars;
  }

  /** With no arguments, or with arguments none of which occurs in the
      input, nothing is removed. */
  lemma {:induction false} StrippedAbsent(s: string, chars: seq<string>)
    requires forall i :: 0 <= i < |chars| ==> !Occurs(chars[i], s)
    ensures Stripped(s, chars) == s
    decreases |chars|
  {
    if chars != [] {
      StrippedAbsent(s, chars[..|chars| - 1]);
      ReplaceAbsent(s, chars[|chars| - 1]);
    }
  }

  /** Every argument is a single character. */
  predicate SingleChars(chars: seq<string>)
  {
    forall i :: 0 <= i < |chars| ==> |chars[i]| == 1
  }

  /** The characters named by one-character arguments. */
  function CharsOf(chars: seq<string>): set<char>
  {
    set x | x in chars && |x| == 1 :: x[0]
  }

  /** When every argument is one character, `remove_chars` filters those
      characters out and keeps every other character in its place. */
  lemma {:induction false} StrippedSingleChars(s: string, chars: seq<string>)
    requires SingleChars(chars)
    ensures Stripped(s, chars) == Keep(s, CharsOf(chars))
    decreases |chars|
  {
    if chars == [] {
      KeepNothing(s);
      assert CharsOf(chars) == {};
    } else {
      var init, last := chars[..|chars| - 1], chars[|chars| - 1];
      StrippedSingleChars(s, init);
      assert last == [last[0]];
      ReplaceOneChar(Keep(s, CharsOf(init)), last[0]);
      KeepTwice(s, CharsOf(init), {last[0]});
      assert chars == init + [last];
      assert CharsOf(chars) == CharsOf(init) + {last[0]};
    }
  }

  lemma {:induction false} KeepNothing(s: string)
    ensures Keep(s, {}) == s
  {
    if s != [] {
      KeepNothing(s[1..]);
    }
  }

  /** Consequence for the caller: after removing one-character arguments,
      none of those characters is left, and every other character of the
      input still is. */
  lemma StrippedSingleCharsMembership(s: string, chars: seq<string>, c: char)
    requires SingleChars(chars)
    ensures c in Stripped(s, chars) <==> c in s && c !in CharsOf(chars)
  {
    StrippedSingleChars(s, chars);
    KeepMembers(s, CharsOf(chars), c);
  }

  /** A longer argument is one substring, not a set of characters: it is
      removed only where it occurs as a whole. */
  lemma RemoveAbsentExamples()
    ensures Stripped("This is a test string", ["aeiou"]) == "This is a test string"
    ensures Stripped("This is a test string", ["0123456789!Â£$%^&*()"]) == "This is a test string"
  {
    var t := "This is a test string";
    forall i | 0 <= i <= |t| ensures !("aeiou" <= t[i..]) && !("0123456789!Â£$%^&*()" <= t[i..]) {
      if i < |t| {
        assert t[i] != '0';
        assert t[i] == 'a' ==> i == 8 && t[i + 1] != 'e';
      }
    }
    StrippedAbsent(t, ["aeiou"]);
    StrippedAbsent(t, ["0123456789!Â£$%^&*()"]);
  }

  /** Removal is one left-to-right pass: deleting "ab" from "aabb" leaves a
      new "ab" behind. */
  lemma RemoveSinglePassExample()
    ensures Stripped("aabb", ["ab"]) == "ab"
  {
    assert Stripped("aabb", ["ab"]) == Replace("aabb", "ab");
    assert "aabb"[..2][1] == 'a';
    assert "aabb"[1..][..2] == "ab";
    assert "aabb"[1..][2..] == "b";
  }
}
