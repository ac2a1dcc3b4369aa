/**
 * Username derivation for accounts created by the replace-user transition:
 * the slug of the replacement contact's name, a hyphen and a 4-digit
 * suffix ("New Person" gives `new-person-dddd`), and the account's
 * document id `org.couchdb.user:<name>`.
 */
module Usernames {

  predicate IsLowerAlnum(c: char) {
    'a' <= c <= 'z' || '0' <= c <= '9'
  }

  predicate IsAlnum(c: char) {
    IsLowerAlnum(c) || 'A' <= c <= 'Z'
  }

  predicate IsDigit(c: char) {
    '0' <= c <= '9'
  }

  /** The characters a slug may contain. */
  predicate IsSlugChar(c: char) {
    IsLowerAlnum(c) || c == '-'
  }

  function Lower(c: char): char {
    if 'A' <= c <= 'Z' then (c as int + 32) as char else c
  }

  /** A well-formed slug: lower-case letters, digits and single hyphens. */
  predicate IsSlug(s: string) {
    && (forall i :: 0 <= i < |s| ==> IsSlugChar(s[i]))
    && (forall i :: 0 <= i < |s| - 1 ==> !(s[i] == '-' && s[i + 1] == '-'))
  }

  /**
   * Lower-cases ASCII letters and collapses every run of other characters
   * into one hyphen.
   */
  function Slug(name: string): (r: string)
    ensures IsSlug(r)
    ensures |r| <= |name|
    ensures |r| == 0 <==> |name| == 0
    ensures (|r| > 0 && r[0] == '-') <==> (|name| > 0 && !IsAlnum(name[0]))
  {
    if name == [] then []
    else if IsAlnum(name[0]) then [Lower(name[0])] + Slug(name[1..])
    else
      var rest := Slug(name[1..]);
      if |rest| > 0 && rest[0] == '-' then rest else ['-'] + rest
  }

  /** Slugging a slug changes nothing, so the slug is a normal form. */
  lemma {:induction false} SlugOfSlug(s: string)
    requires IsSlug(s)
    ensures Slug(s) == s
  {
    if s != [] {
      assert IsSlug(s[1..]) by {
        forall i | 0 <= i < |s[1..]| ensures IsSlugChar(s[1..][i]) {
          assert s[1..][i] == s[i + 1];
        }
        forall i | 0 <= i < |s[1..]| - 1 ensures !(s[1..][i] == '-' && s[1..][i + 1] == '-') {
          assert s[1..][i] == s[i + 1] && s[1..][i + 1] == s[i + 2];
        }
      }
      SlugOfSlug(s[1..]);
      if !IsAlnum(s[0]) {
        assert s[0] == '-';
        assert |s| > 1 ==> s[1] != '-';
      }
    }
  }

  /** The ASCII letters and digits of a name, lower-cased, in order. */
  function LowerAlnums(name: string): string {
    if name == [] then []
    else if IsAlnum(name[0]) then [Lower(name[0])] + LowerAlnums(name[1..])
    else LowerAlnums(name[1..])
  }

  /** A string without its hyphens. */
  function DropHyphens(s: string): string {
    if s == [] then []
    else if s[0] == '-' then DropHyphens(s[1..])
    else [s[0]] + DropHyphens(s[1..])
  }

  /** The number of hyphens in a string. */
  function Hyphens(s: string): nat {
    if s == [] then 0
    else (if s[0] == '-' then 1 else 0) + Hyphens(s[1..])
  }

  /** The number of maximal runs of characters other than ASCII letters and digits. */
  function SeparatorRuns(name: string): nat {
    if name == [] then 0
    else (if !IsAlnum(name[0]) && (|name| == 1 || IsAlnum(name[1])) then 1 else 0) + SeparatorRuns(name[1..])
  }

  /** Besides its hyphens, a slug holds exactly the name's letters and digits, lower-cased and in order. */
  lemma {:induction false} SlugKeepsAlnums(name: string)
    ensures DropHyphens(Slug(name)) == LowerAlnums(name)
  {
    if name != [] {
      var rest := Slug(name[1..]);
      SlugKeepsAlnums(name[1..]);
      if IsAlnum(name[0]) {
        var r := [Lower(name[0])] + rest;
        assert r[0] != '-' && r[1..] == rest;
      } else if |rest| == 0 || rest[0] != '-' {
        assert (['-'] + rest)[1..] == rest;
      }
    }
  }

  /** A slug has one hyphen per run of other characters in the name. */
  lemma {:induction false} SlugHyphenPerRun(name: string)
    ensures Hyphens(Slug(name)) == SeparatorRuns(name)
  {
    if name != [] {
      var rest := Slug(name[1..]);
      SlugHyphenPerRun(name[1..]);
      if IsAlnum(name[0]) {
        var r := [Lower(name[0])] + rest;
        assert r[0] != '-' && r[1..] == rest;
      } else if |rest| == 0 || rest[0] != '-' {
        assert (['-'] + rest)[1..] == rest;
      }
    }
  }

  /** A name made only of letters and digits is lower-cased character by character. */
  lemma {:induction false} SlugOfAlnums(w: string)
    requires forall i :: 0 <= i < |w| ==> IsAlnum(w[i])
    ensures |Slug(w)| == |w|
    ensures forall i :: 0 <= i < |w| ==> Slug(w)[i] == Lower(w[i])
  {
    if w != [] {
      SlugOfAlnums(w[1..]);
    }
  }

  /** A non-empty run of characters other than ASCII letters and digits. */
  predicate IsSeparatorRun(s: string) {
    |s| > 0 && forall i :: 0 <= i < |s| ==> !IsAlnum(s[i])
  }

  /** A cut point on the left: nothing, or a string ending with a letter or digit. */
  predicate EndsAlnum(a: string) {
    a == [] || IsAlnum(a[|a| - 1])
  }

  /** A cut point on the right: nothing, or a string starting with a letter or digit. */
  predicate StartsAlnum(b: string) {
    b == [] || IsAlnum(b[0])
  }

  /** Cutting a name right after a letter or digit cuts its slug at the same place. */
  lemma {:induction false} SlugAppend(a: string, t: string)
    requires EndsAlnum(a)
    ensures Slug(a + t) == Slug(a) + Slug(t)
  {
    if a == [] {
      assert a + t == t;
    } else {
      assert (a + t)[1..] == a[1..] + t;
      SlugAppend(a[1..], t);
      if !IsAlnum(a[0]) {
        assert |a[1..]| > 0;
      }
    }
  }

  /** A run of other characters before a letter, a digit or the end becomes one hyphen. */
  lemma {:induction false} SlugOfRun(s: string, b: string)
    requires IsSeparatorRun(s)
    requires StartsAlnum(b)
    ensures Slug(s + b) == "-" + Slug(b)
  {
    assert (s + b)[1..] == s[1..] + b;
    if |s| == 1 {
      assert s[1..] + b == b;
    } else {
      SlugOfRun(s[1..], b);
    }
  }

  /**
   * Where a name has a maximal run of other characters between `a` and `b`,
   * its slug has exactly one hyphen between the slugs of `a` and `b`; with
   * `SlugOfAlnums` this fixes the slug of every name, run by run.
   */
  lemma SlugRunBecomesHyphen(a: string, s: string, b: string)
    requires EndsAlnum(a)
    requires IsSeparatorRun(s)
    requires StartsAlnum(b)
    ensures Slug(a + s + b) == Slug(a) + "-" + Slug(b)
  {
    assert a + s + b == a + (s + b);
    SlugAppend(a, s + b);
    SlugOfRun(s, b);
  }

  /** Slug is idempotent. */
  lemma SlugIdempotent(name: string)
    ensures Slug(Slug(name)) == Slug(name)
  {
    SlugOfSlug(Slug(name));
  }

  function Digit(d: nat): (c: char)
    requires d < 10
    ensures IsDigit(c)
  {
    ('0' as int + d) as char
  }

  function DigitValue(c: char): (d: nat)
    requires IsDigit(c)
    ensures d < 10
  {
    c as int - '0' as int
  }

  /** The random disambiguator: `n` modulo 10000, written with exactly 4 digits. */
  function FourDigits(n: nat): (s: string)
    ensures |s| == 4
    ensures forall i :: 0 <= i < 4 ==> IsDigit(s[i])
  {
    [Digit(n / 1000 % 10), Digit(n / 100 % 10), Digit(n / 10 % 10), Digit(n % 10)]
  }

  predicate IsFourDigits(s: string) {
    |s| == 4 && forall i :: 0 <= i < 4 ==> IsDigit(s[i])
  }

  function ParseFourDigits(s: string): (n: nat)
    requires IsFourDigits(s)
    ensures n < 10000
  {
    DigitValue(s[0]) * 1000 + DigitValue(s[1]) * 100 + DigitValue(s[2]) * 10 + DigitValue(s[3])
  }

  lemma DivModBy(x: nat, k: nat, q: nat, r: nat)
    requires k == 10 || k == 100 || k == 1000
    requires x == k * q + r && r < k
    ensures x / k == q && x % k == r
  {
  }

  /** Reading back the suffix recovers the drawn number modulo 10000. */
  lemma ParseFourDigitsOfFourDigits(n: nat)
    ensures ParseFourDigits(FourDigits(n)) == n % 10000
  {
    var m := n % 10000;
    var a, b, c, d := n / 1000 % 10, n / 100 % 10, n / 10 % 10, n % 10;
    assert n / 10 == 10 * (n / 100) + c by { DivModBy(n / 10, 10, n / 100, c); }
    assert n / 100 == 10 * (n / 1000) + b;
    assert n / 1000 == 10 * (n / 10000) + a;
    assert n == 10000 * (n / 10000) + 1000 * a + 100 * b + 10 * c + d;
    assert m == 1000 * a + 100 * b + 10 * c + d;
  }

  /** Every 4-digit suffix is the rendering of the number it denotes. */
  lemma FourDigitsOfParse(s: string)
    requires IsFourDigits(s)
    ensures FourDigits(ParseFourDigits(s)) == s
  {
    var n := ParseFourDigits(s);
    var a, b, c, d := DigitValue(s[0]), DigitValue(s[1]), DigitValue(s[2]), DigitValue(s[3]);
    DivModBy(n, 1000, a, 100 * b + 10 * c + d);
    DivModBy(n, 100, 10 * a + b, 10 * c + d);
    DivModBy(n, 10, 100 * a + 10 * b + c, d);
    DivModBy(10 * a + b, 10, a, b);
    DivModBy(100 * a + 10 * b + c, 10, 10 * a + b, c);
    assert n / 1000 % 10 == a;
    assert n / 100 % 10 == b;
    assert n / 10 % 10 == c;
    assert n % 10 == d;
    assert Digit(a) == s[0] && Digit(b) == s[1] && Digit(c) == s[2] && Digit(d) == s[3];
  }

  /** The username built from a slug and a random draw. */
  function MakeUsername(slug: string, draw: nat): string {
    slug + "-" + FourDigits(draw)
  }

  /** The shape `^<slug of name>-\d\d\d\d$` every generated username has. */
  predicate IsGeneratedFor(u: string, name: string) {
    && |u| >= 5
    && u[..|u| - 5] == Slug(name)
    && u[|u| - 5] == '-'
    && IsFourDigits(u[|u| - 4..])
  }

  /** Generated usernames have the promised shape, and only they do. */
  lemma GeneratedShape(u: string, name: string)
    ensures IsGeneratedFor(u, name) <==> exists n :: 0 <= n < 10000 && u == MakeUsername(Slug(name), n)
  {
    if IsGeneratedFor(u, name) {
      var n := ParseFourDigits(u[|u| - 4..]);
      FourDigitsOfParse(u[|u| - 4..]);
      assert u == u[..|u| - 5] + "-" + u[|u| - 4..];
      assert u == MakeUsername(Slug(name), n);
    }
    if exists n :: 0 <= n < 10000 && u == MakeUsername(Slug(name), n) {
      var n :| 0 <= n < 10000 && u == MakeUsername(Slug(name), n);
      var s := Slug(name);
      assert u[..|u| - 5] == s;
      assert u[|u| - 4..] == FourDigits(n);
    }
  }

  lemma MakeUsernameShape(name: string, draw: nat)
    ensures IsGeneratedFor(MakeUsername(Slug(name), draw), name)
  {
    var u := MakeUsername(Slug(name), draw);
    assert u[..|u| - 5] == Slug(name);
    assert u[|u| - 4..] == FourDigits(draw);
  }

  const UserIdPrefix: string := "org.couchdb.user:"

  /** The `_id` of the account document for username `name`. */
  function UserDocId(name: string): string {
    UserIdPrefix + name
  }

  /** Distinct usernames have distinct account document ids. */
  lemma UserDocIdInjective(a: string, b: string)
    ensures UserDocId(a) == UserDocId(b) <==> a == b
  {
    if UserDocId(a) == UserDocId(b) {
      assert a == UserDocId(a)[|UserIdPrefix|..];
      assert b == UserDocId(b)[|UserIdPrefix|..];
    }
  }

  /** One slug step over a letter or digit. */
  lemma SlugAlnumStep(c: char, rest: string)
    requires IsAlnum(c)
    ensures Slug([c] + rest) == [Lower(c)] + Slug(rest)
  {
    assert ([c] + rest)[1..] == rest;
  }

  /** One slug step over a separator followed by a letter or digit. */
  lemma SlugSeparatorStep(c: char, rest: string)
    requires !IsAlnum(c) && |rest| > 0 && IsAlnum(rest[0])
    ensures Slug([c] + rest) == ['-'] + Slug(rest)
  {
    assert ([c] + rest)[1..] == rest;
  }

  /** The literal slugs below are built one character at a time, from the end. */
  lemma PersonSlug()
    ensures Slug("Person") == "person"
  {
    assert Slug("") == "";
    SlugAlnumStep('n', "");
    SlugAlnumStep('o', "n");
    SlugAlnumStep('s', "on");
    SlugAlnumStep('r', "son");
    SlugAlnumStep('e', "rson");
    SlugAlnumStep('P', "erson");
  }

  lemma SpacePersonSlug()
    ensures Slug(" Person") == "-person"
  {
    PersonSlug();
    SlugSeparatorStep(' ', "Person");
  }

  lemma WPersonSlug()
    ensures Slug("w Person") == "w-person"
  {
    SpacePersonSlug();
    SlugAlnumStep('w', " Person");
    assert ['w'] + " Person" == "w Person";
  }

  lemma EwPersonSlug()
    ensures Slug("ew Person") == "ew-person"
  {
    WPersonSlug();
    SlugAlnumStep('e', "w Person");
    assert ['e'] + "w Person" == "ew Person";
  }

  /** "New Person" slugs to "new-person", the prefix the test's username pattern expects. */
  lemma NewPersonSlug()
    ensures Slug("New Person") == "new-person"
  {
    EwPersonSlug();
    SlugAlnumStep('N', "ew Person");
    assert ['N'] + "ew Person" == "New Person";
  }

  /** A username generated for "New Person" has the form `new-person-dddd`. */
  lemma NewPersonShape(u: string)
    requires IsGeneratedFor(u, "New Person")
    ensures |u| == 15 && u[..11] == "new-person-" && IsFourDigits(u[11..])
  {
    NewPersonSlug();
    assert u[..11] == u[..10] + [u[10]];
  }
}
