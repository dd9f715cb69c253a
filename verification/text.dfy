/** The two string clean-ups the scanner applies to every domain it reads:
    Python's `str.strip()` and `str.replace("www.", "")`. */
module Text {

  /** Python's `str.isspace` for one code point: the characters `str.strip()`
      with no argument removes from both ends. */
  predicate IsSpace(c: char) {
    var n := c as int;
    (0x09 <= n <= 0x0D) || (0x1C <= n <= 0x20) || n == 0x85 || n == 0xA0 ||
    n == 0x1680 || (0x2000 <= n <= 0x200A) || n == 0x2028 || n == 0x2029 ||
    n == 0x202F || n == 0x205F || n == 0x3000
  }

  predicate AllSpace(s: string) {
    forall i :: 0 <= i < |s| ==> IsSpace(s[i])
  }

  /** No whitespace at either end: what `strip()` leaves behind. */
  predicate Trimmed(s: string) {
    s == [] || (!IsSpace(s[0]) && !IsSpace(s[|s| - 1]))
  }

  /** The number of whitespace characters `s` starts with. */
  function LeadingSpaces(s: string): (n: nat)
    ensures n <= |s|
    ensures forall i :: 0 <= i < n ==> IsSpace(s[i])
    ensures n < |s| ==> !IsSpace(s[n])
  {
    if s != [] && IsSpace(s[0]) then
      var n := 1 + LeadingSpaces(s[1..]);
      assert forall i :: 0 < i < n ==> s[1..][i - 1] == s[i];
      n
    else 0
  }

  /** Where the whitespace that `s` ends with begins. */
  function TrailingStart(s: string): (n: nat)
    ensures n <= |s|
    ensures forall i :: n <= i < |s| ==> IsSpace(s[i])
    ensures 0 < n ==> !IsSpace(s[n - 1])
  {
    if s != [] && IsSpace(s[|s| - 1]) then TrailingStart(s[..|s| - 1]) else |s|
  }

  /** The contracts above pin both indices down. */
  lemma LeadingSpacesIs(s: string, n: nat)
    requires n <= |s| && (forall i :: 0 <= i < n ==> IsSpace(s[i]))
    requires n < |s| ==> !IsSpace(s[n])
    ensures LeadingSpaces(s) == n
  {
  }

  lemma TrailingStartIs(s: string, n: nat)
    requires n <= |s| && (forall i :: n <= i < |s| ==> IsSpace(s[i]))
    requires 0 < n ==> !IsSpace(s[n - 1])
    ensures TrailingStart(s) == n
  {
  }

  /** `s.strip()`: the infix of `s` left once the whitespace at both ends is
      cut off. */
  function Strip(s: string): (r: string)
    ensures Trimmed(r)
    ensures |r| <= |s|
  {
    var a := LeadingSpaces(s);
    var t := s[a..];
    var b := TrailingStart(t);
    assert 0 < b ==> t[0] == s[a];
    t[..b]
  }

  /** A string with no whitespace at its ends is left alone by `strip()`. */
  lemma StripFixed(s: string)
    requires Trimmed(s)
    ensures Strip(s) == s
  {
    LeadingSpacesIs(s, 0);
    assert s[0..] == s;
    TrailingStartIs(s, |s|);
  }

  /** `strip()` removes exactly the whitespace padding around a trimmed core. */
  lemma StripPadded(pre: string, core: string, post: string)
    requires AllSpace(pre) && AllSpace(post) && Trimmed(core)
    ensures Strip(pre + core + post) == core
  {
    var s := pre + core + post;
    if core == [] {
      forall i | 0 <= i < |s| ensures IsSpace(s[i]) {
        if i < |pre| {
          assert s[i] == pre[i];
        } else {
          assert s[i] == post[i - |pre|];
        }
      }
      LeadingSpacesIs(s, |s|);
      TrailingStartIs(s[|s|..], 0);
    } else {
      forall i | 0 <= i < |pre| ensures IsSpace(s[i]) {
        assert s[i] == pre[i];
      }
      assert s[|pre|] == core[0];
      LeadingSpacesIs(s, |pre|);
      var t := core + post;
      assert s[|pre|..] == t;
      forall i | |core| <= i < |t| ensures IsSpace(t[i]) {
        assert t[i] == post[i - |core|];
      }
      TrailingStartIs(t, |core|);
      assert t[..|core|] == core;
    }
  }

  /** `strip()` only cuts: every character it keeps was in its input. */
  lemma StripChars(s: string)
    ensures forall c :: c in Strip(s) ==> c in s
  {
    var a := LeadingSpaces(s);
    var r := Strip(s);
    forall c | c in r ensures c in s {
      var i :| 0 <= i < |r| && r[i] == c;
      assert s[a + i] == c;
    }
  }

  /** `strip()` is idempotent. */
  lemma StripIdempotent(s: string)
    ensures Strip(Strip(s)) == Strip(s)
  {
    StripFixed(Strip(s));
  }

  /** The literal `"www."` starts at index `i` of `s`. */
  predicate WwwAt(s: string, i: nat) {
    i + 4 <= |s| && s[i..i + 4] == "www."
  }

  predicate HasWww(s: string) {
    exists i: nat :: i < |s| && WwwAt(s, i)
  }

  /** `s.replace("www.", "")`: Python scans left to right and deletes every
      non-overlapping occurrence, wherever it stands in the string. */
  function RemoveWww(s: string): (r: string)
    ensures |r| <= |s|
    decreases |s|
  {
    if |s| < 4 then s
    else if s[..4] == "www." then RemoveWww(s[4..])
    else [s[0]] + RemoveWww(s[1..])
  }

  /** A string without the literal is returned unchanged. */
  lemma {:induction false} RemoveWwwAbsent(s: string)
    requires !HasWww(s)
    ensures RemoveWww(s) == s
    decreases |s|
  {
    if |s| >= 4 {
      assert !WwwAt(s, 0);
      assert s[..4] != "www.";
      forall j: nat | j < |s[1..]| && WwwAt(s[1..], j)
        ensures false
      {
        WwwAtTail(s, j);
      }
      RemoveWwwAbsent(s[1..]);
      assert [s[0]] + s[1..] == s;
    }
  }

  /** `replace` with an empty replacement introduces no new character. */
  lemma {:induction false} RemoveWwwChars(s: string)
    ensures forall c :: c in RemoveWww(s) ==> c in s
    decreases |s|
  {
    if |s| >= 4 {
      if s[..4] == "www." {
        RemoveWwwChars(s[4..]);
      } else {
        RemoveWwwChars(s[1..]);
      }
    }
  }

  lemma WwwAtTail(s: string, j: nat)
    requires s != []
    ensures WwwAt(s[1..], j) <==> WwwAt(s, j + 1)
  {
    if j + 5 <= |s| {
      assert s[1..][j..j + 4] == s[j + 1..j + 5];
    }
  }

  /** The left-to-right reading of `replace`: the prefix before the first
      occurrence is kept, that occurrence is dropped, and the scan resumes right
      after it. */
  lemma {:induction false} RemoveWwwAtFirst(s: string, i: nat)
    requires WwwAt(s, i)
    requires forall j: nat :: j < i ==> !WwwAt(s, j)
    ensures RemoveWww(s) == s[..i] + RemoveWww(s[i + 4..])
  {
    if i == 0 {
      assert s[..4] == "www.";
    } else {
      var t := s[1..];
      var rest := RemoveWww(s[i + 4..]);
      assert [s[0]] + (t[..i - 1] + rest) == ([s[0]] + t[..i - 1]) + rest;
      assert !WwwAt(s, 0);
      RemoveWwwKeepsFirst(s);
      FirstWwwInTail(s, i);
      RemoveWwwAtFirst(t, i - 1);
      TailSlices(s, i);
    }
  }

  /** Without an occurrence at the front, the first character is kept and the
      scan moves one character on. */
  lemma RemoveWwwKeepsFirst(s: string)
    requires |s| >= 4 && !WwwAt(s, 0)
    ensures RemoveWww(s) == [s[0]] + RemoveWww(s[1..])
  {
    assert s[..4] != "www.";
  }

  /** Dropping the first character moves the first occurrence one place left. */
  lemma FirstWwwInTail(s: string, i: nat)
    requires 0 < i && WwwAt(s, i)
    requires forall j: nat :: j < i ==> !WwwAt(s, j)
    ensures WwwAt(s[1..], i - 1)
    ensures forall j: nat :: j < i - 1 ==> !WwwAt(s[1..], j)
  {
    forall j: nat | j < i - 1
      ensures !WwwAt(s[1..], j)
    {
      WwwAtTail(s, j);
    }
    WwwAtTail(s, i - 1);
  }

  lemma TailSlices(s: string, i: nat)
    requires 0 < i && i + 4 <= |s|
    ensures s[1..][i + 3..] == s[i + 4..]
    ensures s[..i] == [s[0]] + s[1..][..i - 1]
  {
  }

  /** `replace` is not idempotent: one pass can create a fresh occurrence out
      of the characters that surround a removed one. */
  lemma RemoveWwwNotIdempotent()
    ensures RemoveWww("wwwww.w.") == "www."
    ensures RemoveWww(RemoveWww("wwwww.w.")) == ""
  {
    var s := "wwwww.w.";
    assert s[..4][3] != "www."[3];
    assert s[1..][..4][3] != "www."[3];
    assert s[2..][..4] == "www.";
    assert RemoveWww(s[2..][4..]) == "w.";
    assert RemoveWww(s[1..]) == "w" + "w.";
    assert "www."[..4] == "www.";
    assert RemoveWww("www."[4..]) == "";
  }

  /** `replace` removes occurrences anywhere, not only a leading label. */
  lemma RemoveWwwInterior()
    ensures RemoveWww("a.www.b") == "a.b"
  {
    var s := "a.www.b";
    assert s[..4][1] != "www."[1];
    assert s[1..][..4][0] != "www."[0];
    assert s[2..][..4] == "www.";
    assert |s[2..][4..]| < 4;
  }
}
