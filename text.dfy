/** ASCII versions of Python's `str.lower()` and `str.strip()`, and the
    normalisation the newsletter signup applies to an e-mail address. */
module Text {

  /** `str.isspace()` on the ASCII range: space, tab to carriage return,
      and the four separators 0x1C to 0x1F. */
  predicate IsSpace(c: char) {
    c == ' ' || ('\t' <= c <= '\r') || ('\U{1C}' <= c <= '\U{1F}')
  }

  predicate IsUpper(c: char) {
    'A' <= c <= 'Z'
  }

  function LowerChar(c: char): char {
    if IsUpper(c) then (c as int + 32) as char else c
  }

  /** `s.lower()` over ASCII: the result has no upper-case letter, every
      upper-case letter becomes its lower-case partner 32 code points up, and
      every other character is kept. */
  function Lower(s: string): (r: string)
    ensures |r| == |s|
    ensures forall i :: 0 <= i < |r| ==> !IsUpper(r[i])
    ensures forall i :: 0 <= i < |s| && !IsUpper(s[i]) ==> r[i] == s[i]
    ensures forall i :: 0 <= i < |s| && IsUpper(s[i]) ==> r[i] as int == s[i] as int + 32
  {
    seq(|s|, i requires 0 <= i < |s| => LowerChar(s[i]))
  }

  /** The number of whitespace characters at the front of `s`. */
  function LeadingSpace(s: string): (n: nat)
    ensures n <= |s|
    ensures forall i :: 0 <= i < n ==> IsSpace(s[i])
    ensures n == |s| || !IsSpace(s[n])
  {
    if s != [] && IsSpace(s[0]) then 1 + LeadingSpace(s[1..]) else 0
  }

  /** The length of `s` without its trailing whitespace. */
  function ContentEnd(s: string): (n: nat)
    ensures n <= |s|
    ensures forall i :: n <= i < |s| ==> IsSpace(s[i])
    ensures n == 0 || !IsSpace(s[n - 1])
  {
    if s != [] && IsSpace(s[|s| - 1]) then ContentEnd(s[..|s| - 1]) else |s|
  }

  /** `s.lstrip()`: drops the leading whitespace and nothing else. */
  function TrimStart(s: string): string {
    s[LeadingSpace(s)..]
  }

  /** `s.rstrip()`: drops the trailing whitespace and nothing else. */
  function TrimEnd(s: string): string {
    s[..ContentEnd(s)]
  }

  /** `s.strip()`: the result has no whitespace at either end, keeps only
      characters of the input, and is empty exactly for a blank input. */
  function Strip(s: string): (r: string)
    ensures |r| <= |s| && Trimmed(r)
    ensures forall k :: 0 <= k < |r| ==> r[k] in s
    ensures r == [] <==> AllSpace(s)
  {
    var i := LeadingSpace(s);
    var t := s[i..];
    assert forall k :: i <= k < |s| ==> s[k] == t[k - i];
    TrimEnd(t)
  }

  /** `email.lower().strip()`, as `newsletter_signup` stores the address:
      no upper-case letter and no whitespace at either end. */
  function NormalizeEmail(email: string): (r: string)
    ensures Trimmed(r)
    ensures forall k :: 0 <= k < |r| ==> !IsUpper(r[k])
  {
    Strip(Lower(email))
  }

  predicate AllSpace(s: string) {
    forall i :: 0 <= i < |s| ==> IsSpace(s[i])
  }

  /** A string with no whitespace at either end. */
  predicate Trimmed(s: string) {
    s == [] || (!IsSpace(s[0]) && !IsSpace(s[|s| - 1]))
  }

  /** Strip keeps a middle slice of its input, removes only whitespace, and
      leaves no whitespace at either end; the slice bounds are returned. */
  lemma StripSlice(s: string) returns (i: nat, j: nat)
    ensures i <= j <= |s| && Strip(s) == s[i..j]
    ensures AllSpace(s[..i]) && AllSpace(s[j..])
    ensures Trimmed(Strip(s))
  {
    i := LeadingSpace(s);
    var t := s[i..];
    j := i + ContentEnd(t);
    assert AllSpace(s[j..]) by {
      forall k | 0 <= k < |s| - j ensures IsSpace(s[j..][k]) {
        assert s[j..][k] == t[ContentEnd(t) + k];
      }
    }
  }

  /** Strip is the only way to cut whitespace padding off a trimmed core:
      the reference characterisation of `strip()`. */
  lemma StripOfPadded(front: string, core: string, back: string)
    requires AllSpace(front) && AllSpace(back) && Trimmed(core)
    ensures Strip(front + core + back) == core
  {
    var s := front + core + back;
    if core == [] {
      assert s == front + back;
      AllSpaceAppend(front, back);
      assert LeadingSpace(s) == |s|;
    } else {
      assert forall k :: 0 <= k < |front| ==> s[k] == front[k];
      assert s[|front|] == core[0];
      assert LeadingSpace(s) == |front|;
      var t := s[|front|..];
      assert t == core + back;
      assert forall k :: |core| <= k < |t| ==> t[k] == back[k - |core|];
      assert t[|core| - 1] == core[|core| - 1];
      assert ContentEnd(t) == |core|;
    }
  }

  lemma StripIdempotent(s: string)
    ensures Strip(Strip(s)) == Strip(s)
  {
    var _, _ := StripSlice(s);
    StripOfPadded([], Strip(s), []);
    assert [] + Strip(s) + [] == Strip(s);
  }

  /** Lower-casing a string that has no upper-case letter changes nothing. */
  lemma LowerOfLowercase(s: string)
    requires forall i :: 0 <= i < |s| ==> !IsUpper(s[i])
    ensures Lower(s) == s
  {
  }

  /** The stored address is already normal: normalising it again is a no-op,
      so looking it up after a second normalisation finds the same record. */
  lemma NormalizeIdempotent(email: string)
    ensures NormalizeEmail(NormalizeEmail(email)) == NormalizeEmail(email)
  {
    NormalizeKeepsNormal(NormalizeEmail(email));
  }

  /** A blank address passes the route's truthiness check but is stored as
      the empty string. */
  lemma BlankEmailNormalizesToEmpty(email: string)
    requires AllSpace(email)
    ensures NormalizeEmail(email) == []
  {
    assert Lower(email) == email;
    StripOfPadded(email, [], []);
    assert email + [] + [] == email;
  }

  /** An address with no upper-case letter and no edge whitespace is stored
      as it is. */
  lemma NormalizeKeepsNormal(email: string)
    requires Trimmed(email)
    requires forall k :: 0 <= k < |email| ==> !IsUpper(email[k])
    ensures NormalizeEmail(email) == email
  {
    LowerOfLowercase(email);
    StripOfPadded([], email, []);
    assert [] + email + [] == email;
  }

  lemma LowerAppend(a: string, b: string)
    ensures Lower(a + b) == Lower(a) + Lower(b)
  {
    var r := Lower(a) + Lower(b);
    forall k | 0 <= k < |a + b| ensures Lower(a + b)[k] == r[k] {
      if k < |a| { assert (a + b)[k] == a[k]; } else { assert (a + b)[k] == b[k - |a|]; }
    }
  }

  lemma LowerOfSpace(s: string)
    requires AllSpace(s)
    ensures Lower(s) == s
  {
    LowerOfLowercase(s);
  }

  lemma AllSpaceAppend(a: string, b: string)
    requires AllSpace(a) && AllSpace(b)
    ensures AllSpace(a + b)
  {
    forall k | 0 <= k < |a + b| ensures IsSpace((a + b)[k]) {
      if k >= |a| { assert (a + b)[k] == b[k - |a|]; }
    }
  }

  /** Extra whitespace padding is removed by strip() like the original. */
  lemma StripIgnoresPadding(front: string, s: string, back: string)
    requires AllSpace(front) && AllSpace(back)
    ensures Strip(front + s + back) == Strip(s)
  {
    var i, j := StripSlice(s);
    var left, right := front + s[..i], s[j..] + back;
    assert front + s + back == left + s[i..j] + right;
    AllSpaceAppend(front, s[..i]);
    AllSpaceAppend(s[j..], back);
    StripOfPadded(left, s[i..j], right);
  }

  /** Whitespace around an address does not change what is stored. */
  lemma NormalizeIgnoresPadding(front: string, raw: string, back: string)
    requires AllSpace(front) && AllSpace(back)
    ensures NormalizeEmail(front + raw + back) == NormalizeEmail(raw)
  {
    assert Lower(front + raw + back) == front + Lower(raw) + back by {
      LowerAppend(front + raw, back);
      LowerAppend(front, raw);
      LowerOfSpace(front);
      LowerOfSpace(back);
    }
    StripIgnoresPadding(front, Lower(raw), back);
  }

  /** Letter case does not change what is stored. */
  lemma NormalizeIgnoresCase(raw: string)
    ensures NormalizeEmail(Lower(raw)) == NormalizeEmail(raw)
  {
    var l := Lower(raw);
    assert Lower(l) == l by {
      forall k | 0 <= k < |l| ensures Lower(l)[k] == l[k] {
        assert l[k] == LowerChar(raw[k]);
      }
    }
  }

  /** Two addresses that differ only in letter case and surrounding
      whitespace are stored as the same string, so the second signup finds
      the first. */
  lemma SameAddressUpToCaseAndPadding(front: string, a: string, back: string, b: string)
    requires AllSpace(front) && AllSpace(back) && Lower(a) == Lower(b)
    ensures NormalizeEmail(front + a + back) == NormalizeEmail(b)
  {
    NormalizeIgnoresPadding(front, a, back);
    NormalizeIgnoresCase(a);
    NormalizeIgnoresCase(b);
  }
}
