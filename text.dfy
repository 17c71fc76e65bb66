/** Character classes and case mapping of Python's `str` methods, restricted
    to ASCII, and `str.join`. */
module Text {

  /** `c.isupper()` on one ASCII character. */
  predicate IsUpper(c: char) { 'A' <= c <= 'Z' }

  predicate IsLower(c: char) { 'a' <= c <= 'z' }

  predicate IsDigit(c: char) { '0' <= c <= '9' }

  /** `c.isspace()` on one ASCII character: space, tab, line feed, vertical
      tab, form feed, carriage return and the four separators 0x1C-0x1F. */
  predicate IsSpace(c: char) { c == ' ' || 9 <= c as int <= 13 || 28 <= c as int <= 31 }

  /** `c.lower()` on one ASCII character. */
  function LowerChar(c: char): (r: char)
    ensures !IsUpper(r)
    ensures IsUpper(c) ==> IsLower(r)
    ensures !IsUpper(c) ==> r == c
  {
    if IsUpper(c) then (c as int + 32) as char else c
  }

  /** `c.upper()` on one ASCII character. */
  function UpperChar(c: char): (r: char)
    ensures !IsLower(r)
    ensures IsLower(c) ==> IsUpper(r) && LowerChar(r) == c
    ensures !IsLower(c) ==> r == c
  {
    if IsLower(c) then (c as int - 32) as char else c
  }

  /** `s.lower()`. */
  function Lower(s: string): (r: string)
    ensures |r| == |s|
    ensures forall i :: 0 <= i < |s| ==> r[i] == LowerChar(s[i])
  {
    seq(|s|, i requires 0 <= i < |s| => LowerChar(s[i]))
  }

  /** `s.capitalize()`: the first character upper case, the rest lower case. */
  function Capitalize(s: string): (r: string)
    ensures |r| == |s|
    ensures s != [] ==> r[0] == UpperChar(s[0]) && r[1..] == Lower(s[1..])
  {
    if s == [] then [] else [UpperChar(s[0])] + Lower(s[1..])
  }

  predicate HasNoUpper(s: string) { forall i :: 0 <= i < |s| ==> !IsUpper(s[i]) }

  lemma LowerHasNoUpper(s: string)
    ensures HasNoUpper(Lower(s))
  {
  }

  lemma LowerOfNoUpper(s: string)
    requires HasNoUpper(s)
    ensures Lower(s) == s
  {
  }

  /** `sep.join(parts)`. */
  function Join(sep: string, parts: seq<string>): (r: string)
    ensures parts == [] ==> r == ""
    ensures |parts| == 1 ==> r == parts[0]
  {
    if parts == [] then "" else parts[0] + SepPrefixed(sep, parts[1..])
  }

  /** Every part preceded by the separator: the tail of `sep.join`. */
  function SepPrefixed(sep: string, parts: seq<string>): string
  {
    if parts == [] then "" else sep + parts[0] + SepPrefixed(sep, parts[1..])
  }

  function TotalLength(parts: seq<string>): nat
  {
    if parts == [] then 0 else |parts[0]| + TotalLength(parts[1..])
  }

  /** The joined text holds every part and one separator between each pair. */
  lemma {:induction false} JoinLength(sep: string, parts: seq<string>)
    requires parts != []
    ensures |Join(sep, parts)| == TotalLength(parts) + (|parts| - 1) * |sep|
  {
    SepPrefixedLength(sep, parts[1..]);
  }

  lemma {:induction false} SepPrefixedLength(sep: string, parts: seq<string>)
    ensures |SepPrefixed(sep, parts)| == TotalLength(parts) + |parts| * |sep|
  {
    if parts != [] {
      SepPrefixedLength(sep, parts[1..]);
    }
  }

  /** Appending one more part appends the separator and that part. */
  lemma {:induction false} JoinSnoc(sep: string, parts: seq<string>, last: string)
    requires parts != []
    ensures Join(sep, parts + [last]) == Join(sep, parts) + sep + last
  {
    assert (parts + [last])[1..] == parts[1..] + [last];
    SepPrefixedSnoc(sep, parts[1..], last);
  }

  lemma {:induction false} SepPrefixedSnoc(sep: string, parts: seq<string>, last: string)
    ensures SepPrefixed(sep, parts + [last]) == SepPrefixed(sep, parts) + sep + last
  {
    if parts == [] {
      assert SepPrefixed(sep, [last]) == sep + last + SepPrefixed(sep, []);
    } else {
      assert (parts + [last])[1..] == parts[1..] + [last];
      SepPrefixedSnoc(sep, parts[1..], last);
    }
  }
}
