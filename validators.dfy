/** The input format checks of utils/re.py: e-mail shape, Hangul user name
    and password complexity.  Each is a pure predicate over a string.  The
    e-mail and user-name checks are Python regular expressions anchored with
    `re.match` at the start and `$` at the end; Python's `$` also matches just
    before one final newline, so a single trailing '\n' is accepted too. */
module Validators {
  import opened Common

  // ---------------------------------------------------------------------
  // Character classes

  predicate IsUpper(c: char) { 'A' <= c <= 'Z' }
  predicate IsLower(c: char) { 'a' <= c <= 'z' }
  predicate IsDigit(c: char) { '0' <= c <= '9' }
  predicate IsAsciiLetter(c: char) { IsUpper(c) || IsLower(c) }
  predicate IsAt(c: char) { c == '@' }

  /** The class [!@#$%^&*(),.?":{}|<>] of the password check. */
  predicate IsSymbol(c: char) { c in "!@#$%^&*(),.?\":{}|<>" }

  /** The class [a-zA-Z0-9._%+-] of the e-mail local part. */
  predicate IsLocalChar(c: char) { IsAsciiLetter(c) || IsDigit(c) || c in "._%+-" }

  /** The class [a-zA-Z0-9.-] of the e-mail domain. */
  predicate IsDomainChar(c: char) { IsAsciiLetter(c) || IsDigit(c) || c in ".-" }

  /** The class [가-힣]: the precomposed Hangul syllables U+AC00..U+D7A3. */
  predicate IsHangul(c: char) { '\U{AC00}' <= c <= '\U{D7A3}' }

  // ---------------------------------------------------------------------
  // Scanning helpers

  /** Every character of s is in the class (a `[...]*` match). */
  function AllOf(s: string, cls: char -> bool): (r: bool)
    ensures r <==> forall i :: 0 <= i < |s| ==> cls(s[i])
  {
    if s == [] then true else cls(s[0]) && AllOf(s[1..], cls)
  }

  /** Some character of s is in the class (an `re.search('[...]')` hit). */
  function HasCharIn(s: string, cls: char -> bool): (r: bool)
    ensures r <==> exists i :: 0 <= i < |s| && cls(s[i])
  {
    if s == [] then false
    else if cls(s[0]) then true
    else
      assert forall i :: 1 <= i < |s| ==> s[i] == s[1..][i - 1];
      HasCharIn(s[1..], cls)
  }

  /** Number of occurrences of c in s. */
  function CountOf(s: string, c: char): (n: nat)
    ensures n <= |s|
    ensures n == 0 <==> c !in s
  {
    if s == [] then 0 else (if s[0] == c then 1 else 0) + CountOf(s[1..], c)
  }

  /** Index of the last occurrence of c in s. */
  function LastIndexOf(s: string, c: char): (r: Option<nat>)
    ensures r.Some? ==> r.value < |s| && s[r.value] == c
    ensures r.Some? ==> forall j :: r.value < j < |s| ==> s[j] != c
    ensures r.None? <==> c !in s
  {
    if s == [] then None
    else if s[|s| - 1] == c then Some(|s| - 1)
    else
      assert forall j :: 0 <= j < |s| - 1 ==> s[j] == s[..|s| - 1][j];
      LastIndexOf(s[..|s| - 1], c)
  }

  /** s with one final newline removed, when it is there: the part a regex
      ending in Python's `$` actually has to match. */
  function DropFinalNewline(s: string): (r: string)
    ensures s == r || s == r + "\n"
    ensures s == r + "\n" <==> |s| > 0 && s[|s| - 1] == '\n'
  {
    if |s| > 0 && s[|s| - 1] == '\n' then s[..|s| - 1] else s
  }

  // ---------------------------------------------------------------------
  // Password (utils/re.py:12-23)

  /** At least 8 characters, with an upper-case letter, a lower-case letter,
      a digit and a symbol. */
  function IsValidPassword(p: string): (r: bool)
    ensures r <==> |p| >= 8
                   && (exists i :: 0 <= i < |p| && IsUpper(p[i]))
                   && (exists i :: 0 <= i < |p| && IsLower(p[i]))
                   && (exists i :: 0 <= i < |p| && IsDigit(p[i]))
                   && (exists i :: 0 <= i < |p| && IsSymbol(p[i]))
  {
    if |p| < 8 then false
    else if !HasCharIn(p, IsUpper) then false
    else if !HasCharIn(p, IsLower) then false
    else if !HasCharIn(p, IsDigit) then false
    else if !HasCharIn(p, IsSymbol) then false
    else true
  }

  /** Every check is an "at least" condition, so appending characters to a
      valid password keeps it valid. */
  lemma PasswordExtension(p: string, q: string)
    requires IsValidPassword(p)
    ensures IsValidPassword(p + q)
  {
    var up :| 0 <= up < |p| && IsUpper(p[up]);
    var lo :| 0 <= lo < |p| && IsLower(p[lo]);
    var di :| 0 <= di < |p| && IsDigit(p[di]);
    var sy :| 0 <= sy < |p| && IsSymbol(p[sy]);
    assert (p + q)[up] == p[up] && (p + q)[lo] == p[lo];
    assert (p + q)[di] == p[di] && (p + q)[sy] == p[sy];
  }

  // ---------------------------------------------------------------------
  // E-mail (utils/re.py:3, 6-7):  ^[a-zA-Z0-9._%+-]+@[a-zA-Z0-9.-]+\.[a-zA-Z]{2,}$

  /** The regex read as a split: s[..i] is the local part, s[i] the '@',
      s[i+1..j] the domain body, s[j] the escaped dot and s[j+1..] the
      top-level label of at least two letters. */
  ghost predicate RegexSplit(s: string, i: int, j: int)
  {
    && 1 <= i && i + 2 <= j && j + 3 <= |s|
    && AllOf(s[..i], IsLocalChar)
    && s[i] == '@'
    && AllOf(s[i + 1..j], IsDomainChar)
    && s[j] == '.'
    && AllOf(s[j + 1..], IsAsciiLetter)
  }

  /** The e-mail regex matches the whole of s (the backtracking semantics). */
  ghost predicate EmailRegexFull(s: string)
  {
    exists i, j :: RegexSplit(s, i, j)
  }

  /** What `re.match(email_regex, s) is not None` accepts. */
  ghost predicate EmailRegexMatch(s: string)
  {
    EmailRegexFull(s) || (|s| > 0 && s[|s| - 1] == '\n' && EmailRegexFull(s[..|s| - 1]))
  }

  /** The "last dot" reading of the regex: one '@' splits s into a non-empty
      local part of local-part characters and a domain of e-mail shape. */
  function IsEmailShape(s: string): (r: bool)
  {
    match IndexWhere(s, IsAt)
    case None => false
    case Some(a) => a >= 1 && AllOf(s[..a], IsLocalChar) && IsDomainShape(s[a + 1..])
  }

  /** The domain uses only domain characters, and its last '.' stands at
      index 1 or later and is followed by at least two letters and nothing
      else. */
  function IsDomainShape(d: string): (r: bool)
  {
    && AllOf(d, IsDomainChar)
    && match LastIndexOf(d, '.')
       case None => false
       case Some(k) => k >= 1 && |d| - k - 1 >= 2 && AllOf(d[k + 1..], IsAsciiLetter)
  }

  /** is_valid_email. */
  function IsValidEmail(s: string): (r: bool)
  {
    IsEmailShape(DropFinalNewline(s))
  }

  /** The last-dot characterisation accepts exactly what the regex accepts. */
  lemma EmailShapeIsRegex(s: string)
    ensures IsEmailShape(s) <==> EmailRegexFull(s)
  {
    if IsEmailShape(s) {
      ShapeGivesSplit(s);
    }
    if EmailRegexFull(s) {
      var i, j :| RegexSplit(s, i, j);
      SplitGivesShape(s, i, j);
    }
  }

  lemma ShapeGivesSplit(s: string)
    requires IsEmailShape(s)
    ensures EmailRegexFull(s)
  {
    var a, k := ShapeFacts(s);
    var j := a + 1 + k;
    SliceOfSuffix(s, a + 1, k);
    assert RegexSplit(s, a, j);
  }

  /** The split IsEmailShape settles on: the first '@' at a and, in the
      domain after it, the last '.' at k. */
  lemma ShapeFacts(s: string) returns (a: nat, k: nat)
    requires IsEmailShape(s)
    ensures 1 <= a < |s| && s[a] == '@' && AllOf(s[..a], IsLocalChar)
    ensures 1 <= k && k + 3 <= |s[a + 1..]| && s[a + 1..][k] == '.'
    ensures AllOf(s[a + 1..][..k], IsDomainChar) && AllOf(s[a + 1..][k + 1..], IsAsciiLetter)
  {
    a := IndexWhere(s, IsAt).value;
    k := DomainFacts(s[a + 1..]);
  }

  /** Slicing the suffix s[b..] at k is slicing s at b + k. */
  lemma SliceOfSuffix(s: string, b: nat, k: nat)
    requires b + k < |s|
    ensures s[b..][..k] == s[b..b + k] && s[b..][k] == s[b + k] && s[b..][k + 1..] == s[b + k + 1..]
  {
  }

  /** The parts of a domain of e-mail shape around its last dot k. */
  lemma DomainFacts(d: string) returns (k: nat)
    requires IsDomainShape(d)
    ensures 1 <= k && k + 3 <= |d| && d[k] == '.'
    ensures AllOf(d[..k], IsDomainChar) && AllOf(d[k + 1..], IsAsciiLetter)
  {
    k := LastIndexOf(d, '.').value;
    AllOfSlice(d, IsDomainChar, 0, k);
    assert d[0..k] == d[..k];
  }

  /** A class run stays one on any slice. */
  lemma AllOfSlice(x: string, cls: char -> bool, lo: int, hi: int)
    requires AllOf(x, cls) && 0 <= lo <= hi <= |x|
    ensures AllOf(x[lo..hi], cls)
  {
    assert forall m :: 0 <= m < hi - lo ==> x[lo..hi][m] == x[lo + m];
  }

  lemma SplitGivesShape(s: string, i: int, j: int)
    requires RegexSplit(s, i, j)
    ensures IsEmailShape(s)
  {
    FirstAtAfterLocal(s, i);
    SliceOfSuffix(s, i + 1, j - i - 1);
    DomainOfSplit(s[i + 1..], j - i - 1);
  }

  /** A run of local-part characters ended by '@' puts the first '@' there. */
  lemma FirstAtAfterLocal(s: string, i: nat)
    requires i < |s| && s[i] == '@' && AllOf(s[..i], IsLocalChar)
    ensures IndexWhere(s, IsAt) == Some(i)
  {
    forall m | 0 <= m < i ensures !IsAt(s[m]) {
      assert s[m] == s[..i][m];
    }
    var r := IndexWhere(s, IsAt);
    assert IsAt(s[i]);
  }

  /** A domain body, a dot at k and a run of two or more letters make a
      domain of e-mail shape. */
  lemma DomainOfSplit(d: string, k: nat)
    requires 1 <= k && k + 3 <= |d| && d[k] == '.'
    requires AllOf(d[..k], IsDomainChar) && AllOf(d[k + 1..], IsAsciiLetter)
    ensures IsDomainShape(d)
  {
    forall m | 0 <= m < |d| ensures IsDomainChar(d[m]) {
      if m < k {
        assert d[m] == d[..k][m];
      } else if m > k {
        assert d[m] == d[k + 1..][m - k - 1];
      }
    }
    forall m | k < m < |d| ensures d[m] != '.' {
      assert d[m] == d[k + 1..][m - k - 1];
    }
    LastIndexOfIs(d, '.', k);
  }

  lemma LastIndexOfIs(s: string, c: char, k: nat)
    requires k < |s| && s[k] == c
    requires forall m :: k < m < |s| ==> s[m] != c
    ensures LastIndexOf(s, c) == Some(k)
  {
    var r := LastIndexOf(s, c);
    assert c in s;
    assert r.Some?;
  }

  /** is_valid_email agrees with Python's `re.match` of the e-mail regex,
      including the final-newline allowance of `$`. */
  lemma IsValidEmailMatchesRegex(s: string)
    ensures IsValidEmail(s) <==> EmailRegexMatch(s)
  {
    EmailShapeIsRegex(s);
    if |s| > 0 && s[|s| - 1] == '\n' {
      EmailShapeIsRegex(s[..|s| - 1]);
    }
  }

  /** A valid e-mail has exactly one '@' and uses no character outside the
      local-part class, except the '@' itself and a final newline. */
  lemma ValidEmailCharacters(s: string)
    requires IsValidEmail(s)
    ensures CountOf(DropFinalNewline(s), '@') == 1
    ensures forall k :: 0 <= k < |s| ==>
              IsLocalChar(s[k]) || s[k] == '@' || (k == |s| - 1 && s[k] == '\n')
  {
    var t := DropFinalNewline(s);
    ShapeSingleAt(t);
    ShapeCharacters(t);
    assert forall k :: 0 <= k < |t| ==> s[k] == t[k];
  }

  lemma ShapeSingleAt(t: string)
    requires IsEmailShape(t)
    ensures CountOf(t, '@') == 1
  {
    var a := ShapeAtSplit(t);
    var local, domain := t[..a], t[a + 1..];
    assert t == local + ([t[a]] + domain);
    CountSplit([t[a]], domain, '@');
    CountSplit(local, [t[a]] + domain, '@');
  }

  /** The '@' of an e-mail shape, with none before or after it. */
  lemma ShapeAtSplit(t: string) returns (a: nat)
    requires IsEmailShape(t)
    ensures a < |t| && t[a] == '@'
    ensures '@' !in t[..a] && '@' !in t[a + 1..]
  {
    a := IndexWhere(t, IsAt).value;
    var local := t[..a];
    assert forall k :: 0 <= k < a ==> local[k] == t[k];
    assert !IsDomainChar('@');
  }

  lemma ShapeCharacters(t: string)
    requires IsEmailShape(t)
    ensures forall k :: 0 <= k < |t| ==> IsLocalChar(t[k]) || t[k] == '@'
  {
    var a := IndexWhere(t, IsAt).value;
    forall k | 0 <= k < |t| ensures IsLocalChar(t[k]) || t[k] == '@' {
      if k < a {
        assert t[k] == t[..a][k];
      } else if k > a {
        assert t[k] == t[a + 1..][k - a - 1];
      }
    }
  }

  /** Occurrences add up over a concatenation. */
  lemma {:induction false} CountSplit(x: string, y: string, c: char)
    ensures CountOf(x + y, c) == CountOf(x, c) + CountOf(y, c)
  {
    if x == [] {
      assert x + y == y;
    } else {
      assert (x + y)[1..] == x[1..] + y;
      CountSplit(x[1..], y, c);
    }
  }

  // ---------------------------------------------------------------------
  // User name (utils/re.py:4, 9-10):  ^[가-힣]{2,10}$

  /** is_valid_username: 2 to 10 Hangul syllables, optionally followed by one
      final newline (Python's `$`). */
  function IsValidUsername(s: string): (r: bool)
    ensures r <==> var t := DropFinalNewline(s);
                   2 <= |t| <= 10 && forall i :: 0 <= i < |t| ==> IsHangul(t[i])
  {
    var t := DropFinalNewline(s);
    2 <= |t| <= 10 && AllOf(t, IsHangul)
  }

  /** Without a trailing newline a valid name is 2..10 Hangul syllables and
      nothing else; with one, that newline is the only non-Hangul character. */
  lemma UsernameShape(s: string)
    requires IsValidUsername(s)
    ensures 2 <= |s| <= 11
    ensures forall i :: 0 <= i < |s| - 1 ==> IsHangul(s[i])
    ensures IsHangul(s[|s| - 1]) ==> |s| <= 10
  {
    var t := DropFinalNewline(s);
    assert forall i :: 0 <= i < |t| ==> s[i] == t[i];
    if |s| > 0 && s[|s| - 1] == '\n' {
      assert !IsHangul('\n');
    }
  }
}
