/**
 * The names `rotate` works with: the "already rotated" guard, the sibling scan for the
 * largest numeric suffix, and the `"%s.%03d"` archive name.
 */
module Naming {

  datatype Option<T> = None | Some(value: T)

  /** `\d` on a byte string: an ASCII decimal digit. */
  predicate IsDigit(c: char)
  {
    '0' <= c <= '9'
  }

  predicate AllDigits(s: string)
  {
    forall i | 0 <= i < |s| :: IsDigit(s[i])
  }

  /** `int(s)` for a string of decimal digits (leading zeros allowed). */
  function DigitsValue(s: string): nat
    requires AllDigits(s)
  {
    if s == [] then 0 else 10 * DigitsValue(s[..|s| - 1]) + (s[|s| - 1] - '0') as int
  }

  function DigitChar(d: nat): (c: char)
    requires d < 10
    ensures IsDigit(c) && (c - '0') as int == d
  {
    '0' + d as char
  }

  /** `str(n)`: the decimal digits of `n`, without leading zeros. */
  function Decimal(n: nat): (s: string)
    ensures AllDigits(s) && DigitsValue(s) == n
    ensures |s| >= 1 && (|s| == 1 <==> n < 10)
    ensures s[0] == '0' <==> n == 0
  {
    if n < 10 then [DigitChar(n)]
    else
      var s := Decimal(n / 10) + [DigitChar(n % 10)];
      assert s[..|s| - 1] == Decimal(n / 10);
      s
  }

  /** `k` zero digits. */
  function Zeros(k: nat): (s: string)
    ensures |s| == k && AllDigits(s)
  {
    if k == 0 then [] else ['0'] + Zeros(k - 1)
  }

  /** A leading zero does not change the value of a numeral. */
  lemma {:induction false} LeadingZero(s: string)
    requires AllDigits(s)
    ensures AllDigits(['0'] + s) && DigitsValue(['0'] + s) == DigitsValue(s)
  {
    var t := ['0'] + s;
    if s != [] {
      assert t[..|t| - 1] == ['0'] + s[..|s| - 1];
      LeadingZero(s[..|s| - 1]);
    }
  }

  /** Leading zeros do not change the value of a numeral. */
  lemma {:induction false} ZerosValue(k: nat, s: string)
    requires AllDigits(s)
    ensures AllDigits(Zeros(k) + s) && DigitsValue(Zeros(k) + s) == DigitsValue(s)
  {
    if k > 0 {
      var t := Zeros(k - 1) + s;
      ZerosValue(k - 1, s);
      LeadingZero(t);
      calc {
        Zeros(k) + s;
        (['0'] + Zeros(k - 1)) + s;
        ['0'] + t;
      }
    } else {
      assert Zeros(k) + s == s;
    }
  }

  /**
   * `"%03d" % n`: the decimal digits of `n`, padded with zeros to at least three;
   * a longer result has no leading zero.
   */
  function Pad3(n: nat): (s: string)
    ensures AllDigits(s) && DigitsValue(s) == n
    ensures |s| >= 3 && (|s| > 3 ==> s[0] != '0')
  {
    var d := Decimal(n);
    var k := if |d| < 3 then 3 - |d| else 0;
    ZerosValue(k, d);
    Zeros(k) + d
  }

  /** The longest run of digits that ends `s`. */
  function TrailingDigits(s: string): (t: string)
    ensures |t| <= |s| && t == s[|s| - |t|..] && AllDigits(t)
    ensures |t| < |s| ==> !IsDigit(s[|s| - |t| - 1])
  {
    if s == [] || !IsDigit(s[|s| - 1]) then []
    else
      var t := TrailingDigits(s[..|s| - 1]) + [s[|s| - 1]];
      assert s[|s| - |t|..] == s[..|s| - 1][|s| - |t|..] + [s[|s| - 1]];
      t
  }

  /** Any all-digit ending of `s` lies within its trailing run of digits. */
  lemma {:induction false} TrailingDigitsMaximal(s: string, j: nat)
    requires j <= |s| && AllDigits(s[j..])
    ensures |TrailingDigits(s)| >= |s| - j
  {
    if j < |s| {
      assert s[..|s| - 1][j..] == s[j..|s| - 1];
      TrailingDigitsMaximal(s[..|s| - 1], j);
    }
  }

  /** `\.(\d+)$` matches `s` at position `i`, with `$` at the very end of `s`. */
  ghost predicate ExtAt(s: string, i: int)
  {
    0 <= i < |s| - 1 && s[i] == '.' && AllDigits(s[i + 1..])
  }

  /** The group of `\.(\d+)$` when it matches at the very end of `s`. */
  function EndExt(s: string): Option<nat>
  {
    var t := TrailingDigits(s);
    if 0 < |t| < |s| && s[|s| - |t| - 1] == '.' then Some(DigitsValue(t)) else None
  }

  /** A match at `i` makes the trailing run of digits exactly `s[i + 1..]`. */
  lemma ExtAtTrailing(s: string, i: int)
    requires ExtAt(s, i)
    ensures TrailingDigits(s) == s[i + 1..]
  {
    var t := TrailingDigits(s);
    TrailingDigitsMaximal(s, i + 1);
  }

  /** Wherever `\.(\d+)$` matches, `EndExt` gives the digits after that dot. */
  lemma EndExtAt(s: string)
    ensures forall i | ExtAt(s, i) :: EndExt(s) == Some(DigitsValue(s[i + 1..]))
  {
    forall i | ExtAt(s, i)
      ensures EndExt(s) == Some(DigitsValue(s[i + 1..]))
    {
      ExtAtTrailing(s, i);
    }
  }

  /** `EndExt` finds a match exactly when there is one, and its value is the digits after the dot. */
  lemma EndExtSpec(s: string)
    ensures EndExt(s).Some? <==> exists i :: ExtAt(s, i)
    ensures forall i | ExtAt(s, i) :: EndExt(s) == Some(DigitsValue(s[i + 1..]))
  {
    EndExtAt(s);
    var t := TrailingDigits(s);
    if 0 < |t| < |s| && s[|s| - |t| - 1] == '.' {
      assert ExtAt(s, |s| - |t| - 1);
    }
  }

  /** `s` without one final newline, which Python's `$` may also stand before. */
  function Chomp(s: string): string
  {
    if |s| > 0 && s[|s| - 1] == '\n' then s[..|s| - 1] else s
  }

  /** `int(ext_re.findall(s)[0])` when `ext_re.search(s)` succeeds, else `None`. */
  function ExtSearch(s: string): Option<nat>
  {
    EndExt(Chomp(s))
  }

  /** `ext_re.match(s)`: the pattern must match from the first character, so `s` is `.` and digits. */
  predicate ArchivedName(s: string)
  {
    var c := Chomp(s);
    |c| >= 2 && c[0] == '.' && AllDigits(c[1..])
  }

  /** `fn` is among `glob.glob(name + ".*[0-9]")`: it extends `name + "."` within the same directory and ends in a digit. */
  predicate GlobMatch(name: string, fn: string)
  {
    |fn| >= |name| + 2 && fn[..|name| + 1] == name + "." && IsDigit(fn[|fn| - 1])
    && forall i | |name| + 1 <= i < |fn| :: fn[i] != '/'
  }

  /** The numeric suffix a listed file contributes to the scan, if any. */
  function SuffixOf(name: string, fn: string): Option<nat>
  {
    if GlobMatch(name, fn) then ExtSearch(fn) else None
  }

  /** The suffix each listed name contributes to the generator that `max` consumes, if any. */
  function Suffixes(name: string, listing: seq<string>): seq<Option<nat>>
  {
    seq(|listing|, i requires 0 <= i < |listing| => SuffixOf(name, listing[i]))
  }

  /** `max` over the present values, or `None` where `max` of nothing raises `ValueError`. */
  function Max(vs: seq<Option<nat>>): (r: Option<nat>)
    ensures r.None? <==> forall i | 0 <= i < |vs| :: vs[i].None?
    ensures r.Some? ==> r in vs
    ensures r.Some? ==> forall i | 0 <= i < |vs| && vs[i].Some? :: vs[i].value <= r.value
  {
    if vs == [] then None
    else
      var rest := Max(vs[1..]);
      assert forall i | 1 <= i < |vs| :: vs[i] == vs[1..][i - 1];
      if vs[0].None? || (rest.Some? && rest.value > vs[0].value) then rest else vs[0]
  }

  /** `next_id`: one more than the largest sibling suffix, or 1 when there is none. */
  function NextId(name: string, listing: seq<string>): (id: nat)
    ensures id >= 1
  {
    var m := Max(Suffixes(name, listing));
    if m.None? then 1 else m.value + 1
  }

  /** One past the maximum of `vs` (or 1) is above every value in `vs`, and one past one of them unless it is 1. */
  lemma AboveMax(vs: seq<Option<nat>>, id: nat)
    requires id == if Max(vs).None? then 1 else Max(vs).value + 1
    ensures forall i | 0 <= i < |vs| && vs[i].Some? :: vs[i].value < id
    ensures id == 1 || Some(id - 1) in vs
  {
  }

  /** `next_id` is above every suffix the listed names contribute, and one past one of them unless it is 1. */
  lemma NextIdSpec(name: string, listing: seq<string>)
    ensures forall i | 0 <= i < |listing| && SuffixOf(name, listing[i]).Some? ::
              SuffixOf(name, listing[i]).value < NextId(name, listing)
    ensures NextId(name, listing) == 1 || Some(NextId(name, listing) - 1) in Suffixes(name, listing)
  {
    var vs := Suffixes(name, listing);
    AboveMax(vs, NextId(name, listing));
    forall i | 0 <= i < |listing| && SuffixOf(name, listing[i]).Some?
      ensures SuffixOf(name, listing[i]).value < NextId(name, listing)
    {
      assert vs[i] == SuffixOf(name, listing[i]);
    }
  }

  /** `"%s.%s" % (name, ext)`: a sibling of `name` with the extension `ext`. */
  function Archive(name: string, ext: string): string
  {
    name + "." + ext
  }

  /** `next_fn`: `"%s.%03d" % (name, next_id)`. */
  function NextName(name: string, listing: seq<string>): string
  {
    Archive(name, Pad3(NextId(name, listing)))
  }

  /** The archive name is itself a sibling whose suffix is `next_id`. */
  lemma NextNameSuffix(name: string, listing: seq<string>)
    ensures GlobMatch(name, NextName(name, listing))
    ensures SuffixOf(name, NextName(name, listing)) == Some(NextId(name, listing))
  {
    NumberedSuffix(name, Pad3(NextId(name, listing)));
  }

  /** The archive name is not any listed file, so no existing archive is overwritten. */
  lemma NextNameFresh(name: string, listing: seq<string>)
    ensures NextName(name, listing) !in listing
  {
    NextNameSuffix(name, listing);
    NextIdSpec(name, listing);
  }

  /**
   * The "already rotated" guard fires on an archive name only when the base name is empty:
   * `x` rotates to `x.001`, which the guard lets through, so rotating again renames it once more.
   */
  lemma GuardAfterRotate(name: string, listing: seq<string>)
    ensures ArchivedName(NextName(name, listing)) <==> name == []
  {
    var p := Pad3(NextId(name, listing));
    var s := NextName(name, listing);
    assert s[|s| - 1] == p[|p| - 1];
    assert Chomp(s) == s;
    if name == [] {
      assert s[1..] == p;
    } else {
      assert s[1..][|name| - 1] == '.';
    }
  }

  lemma Pad3Examples()
    ensures Pad3(1) == "001" && Pad3(51) == "051" && Pad3(8) == "008" && Pad3(1000) == "1000"
  {
    assert DigitChar(1) == '1' && DigitChar(5) == '5' && DigitChar(8) == '8' && DigitChar(0) == '0';
    assert Decimal(1) == "1";
    assert Decimal(5) == "5";
    assert Decimal(51) == Decimal(5) + "1";
    assert Decimal(8) == "8";
    assert Decimal(1000) == Decimal(100) + "0";
    assert Decimal(100) == Decimal(10) + "0";
    assert Decimal(10) == Decimal(1) + "0";
    assert Zeros(2) == "00";
    assert Zeros(1) == "0";
    assert Zeros(0) == "";
  }

  /** A sibling named `name.digits` contributes the value of its digits to the scan. */
  lemma NumberedSuffix(name: string, digits: string)
    requires |digits| >= 1 && AllDigits(digits)
    ensures GlobMatch(name, Archive(name, digits))
    ensures SuffixOf(name, Archive(name, digits)) == Some(DigitsValue(digits))
  {
    var fn := Archive(name, digits);
    assert fn[..|name| + 1] == name + ".";
    assert fn[|name| + 1..] == digits;
    assert fn[|fn| - 1] == digits[|digits| - 1];
    assert forall i | |name| + 1 <= i < |fn| :: fn[i] == digits[i - |name| - 1];
    assert GlobMatch(name, fn);
    assert Chomp(fn) == fn;
    assert ExtAt(fn, |name|);
    EndExtSpec(fn);
    assert EndExt(fn) == Some(DigitsValue(digits));
  }

  /** Siblings the glob does not return, or whose last dotted part is not all digits, are not counted. */
  lemma MalformedSuffixes(name: string)
    ensures SuffixOf(name, name + ".999.z") == None
    ensures SuffixOf(name, name + ".999.") == None
    ensures SuffixOf(name, name + ".d/x.5") == None
    ensures SuffixOf(name, name + ".9a9") == None
  {
    var n := |name|;
    assert (name + ".999.z")[n + 5] == 'z';
    assert (name + ".999.")[n + 4] == '.';
    assert (name + ".d/x.5")[n + 2] == '/';
    var s := name + ".9a9";
    assert s[n + 2] == 'a' && s[n + 3] == '9' && |s| == n + 4;
    EndExtSpec(Chomp(s));
    forall i | 0 <= i < n + 2 ensures !ExtAt(s, i) {
      assert s[i + 1..][n + 1 - i] == 'a';
    }
  }

  /** A last dotted part of digits counts even after another dotted part: `name.x.7` gives 7. */
  lemma DottedSuffix(name: string)
    ensures SuffixOf(name, name + ".x.7") == Some(7)
  {
    var fn := name + ".x.7";
    var n := |name|;
    assert fn[..n + 1] == name + "." && fn[n + 1] == 'x' && fn[n + 2] == '.' && fn[n + 3] == '7';
    assert fn[n + 3..] == "7";
    assert DigitsValue("7") == 7;
    assert GlobMatch(name, fn) && Chomp(fn) == fn;
    assert ExtAt(fn, n + 2);
    EndExtSpec(fn);
  }

  /** `next_id` from the suffixes the listed names contribute: one past the largest, or 1 when none counts. */
  lemma NextIdFrom(name: string, listing: seq<string>, vs: seq<Option<nat>>)
    requires Suffixes(name, listing) == vs
    ensures NextId(name, listing) == if Max(vs).None? then 1 else Max(vs).value + 1
  {
  }

  /** The suffixes of a listing of one name. */
  lemma Suffixes1(name: string, a: string)
    ensures Suffixes(name, [a]) == [SuffixOf(name, a)]
  {
  }

  /** The suffixes of a listing of two names. */
  lemma Suffixes2(name: string, a: string, b: string)
    ensures Suffixes(name, [a, b]) == [SuffixOf(name, a), SuffixOf(name, b)]
  {
  }

  /** The first archive of a name with no numbered siblings is `.001`. */
  lemma FirstArchive(name: string)
    ensures NextName(name, []) == Archive(name, "001")
  {
    assert NextId(name, []) == 1 by {
      NextIdFrom(name, [], []);
    }
    assert Pad3(1) == "001" by {
      Pad3Examples();
    }
  }

  lemma DigitsExamples()
    ensures DigitsValue("050") == 50 && DigitsValue("007") == 7 && DigitsValue("999") == 999
  {
    assert "050"[..2] == "05" && "05"[..1] == "0";
    assert "007"[..2] == "00" && "00"[..1] == "0";
    assert "999"[..2] == "99" && "99"[..1] == "9";
  }

  lemma MaxExample()
    ensures Max([Some(7), Some(50)]) == Some(50)
  {
    assert [Some(7), Some(50)][1..] == [Some(50)];
    assert [Some(50)][1..] == [];
  }

  /** The largest sibling suffix is counted up, whatever order the glob lists them in. */
  lemma ArchiveCountsUp(name: string)
    ensures NextName(name, [Archive(name, "007"), Archive(name, "050")]) == Archive(name, "051")
  {
    var listing := [Archive(name, "007"), Archive(name, "050")];
    assert NextId(name, listing) == 51 by {
      NumberedSuffix(name, "007");
      NumberedSuffix(name, "050");
      DigitsExamples();
      Suffixes2(name, Archive(name, "007"), Archive(name, "050"));
      MaxExample();
      NextIdFrom(name, listing, [Some(7), Some(50)]);
    }
    assert Pad3(51) == "051" by {
      Pad3Examples();
    }
  }

  /** Past `.999` the archive number takes a fourth digit. */
  lemma ArchivePastThreeDigits(name: string)
    ensures NextName(name, [Archive(name, "999")]) == Archive(name, "1000")
  {
    var listing := [Archive(name, "999")];
    assert NextId(name, listing) == 1000 by {
      NumberedSuffix(name, "999");
      DigitsExamples();
      Suffixes1(name, Archive(name, "999"));
      NextIdFrom(name, listing, [Some(999)]);
    }
    assert Pad3(1000) == "1000" by {
      Pad3Examples();
    }
  }

  /** Malformed siblings do not count, so the archive is `.001`. */
  lemma MalformedSiblingsIgnored(name: string)
    ensures NextName(name, [name + ".999.z", name + ".9a9"]) == Archive(name, "001")
  {
    var listing := [name + ".999.z", name + ".9a9"];
    assert NextId(name, listing) == 1 by {
      MalformedSuffixes(name);
      Suffixes2(name, name + ".999.z", name + ".9a9");
      NextIdFrom(name, listing, [None, None]);
    }
    assert Pad3(1) == "001" by {
      Pad3Examples();
    }
  }

  /** `name.x.7` counts as suffix 7, so the archive is `.008`. */
  lemma DottedSiblingCounts(name: string)
    ensures NextName(name, [name + ".x.7"]) == Archive(name, "008")
  {
    var listing := [name + ".x.7"];
    assert NextId(name, listing) == 8 by {
      DottedSuffix(name);
      Suffixes1(name, name + ".x.7");
      NextIdFrom(name, listing, [Some(7)]);
    }
    assert Pad3(8) == "008" by {
      Pad3Examples();
    }
  }

  /** The guard: only a whole name of the form `.digits` (with an optional final newline) counts as rotated. */
  lemma ArchivedNameExamples()
    ensures ArchivedName(".001") && ArchivedName(".7\n")
    ensures !ArchivedName("log.001") && !ArchivedName(".") && !ArchivedName(".0a")
  {
  }
}
