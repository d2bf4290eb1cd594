// The trait helpers that label a rule with its Wolfram class, the share of
// all rules that class holds, and the extra rarity a mirrored image earns.

module Classification {
  import opened Wrappers

  datatype WolframClass = Emptied | Periodic | Structured | Chaotic

  // What findClass reports: the class and its rounded share of all rules.
  datatype ClassData = ClassData(cls: WolframClass, percent: nat)

  // The traits the sketch records once a rule has been classified.
  datatype Traits = Traits(rule: int, cls: WolframClass, boost: int,
                           mirrored: bool, extraRarity: nat)

  // Class I, the rules whose pattern dies out.
  const Class1: seq<int> :=
    [0, 8, 32, 40, 64, 72, 96, 104, 128, 136, 160, 168, 192, 200, 224, 232]

  // Class II, the rules whose pattern settles into repetition.
  const Class2: seq<int> :=
    [1, 2, 3, 4, 5, 6, 7, 9, 10, 11, 12, 13, 14, 15, 16, 17]
    + [19, 20, 21, 23, 24, 25, 27, 29, 31, 33, 34, 35, 36, 37, 38, 39]
    + [41, 42, 43, 44, 46, 47, 48, 49, 51, 52, 53, 55, 56, 59, 61, 63]
    + [65, 66, 67, 68, 69, 70, 71, 74, 76, 78, 79, 80, 81, 83, 84, 85]
    + [87, 88, 92, 93, 95, 97, 98, 100, 103, 106, 108, 111, 112, 113, 115, 116]
    + [117, 119, 120, 123, 125, 127, 130, 132, 134, 138, 139, 140, 142, 143, 144, 148]
    + [151, 152, 155, 159, 162, 164, 166, 170, 171, 172, 173, 174, 175, 176, 180, 183]
    + [184, 185, 187, 189, 191, 194, 196, 201, 202, 203, 204, 205, 207, 208, 209, 211]
    + [212, 213, 215, 216, 217, 219, 221, 223, 226, 227, 228, 229, 231, 233, 234, 235]
    + [236, 237, 239, 240, 241, 243, 244, 245, 247, 248, 249, 251, 253, 255]

  // Class III, the rules whose pattern stays random-looking.
  const Class3: seq<int> :=
    [18, 22, 26, 28, 50, 54, 57, 58, 60, 62, 73, 77, 82, 90, 91, 94]
    + [99, 102, 105, 109, 110, 114, 118, 122, 124, 126, 129, 131, 133, 137, 141, 145]
    + [146, 147, 150, 153, 154, 156, 157, 158, 161, 163, 165, 167, 177, 178, 179, 181]
    + [182, 186, 188, 190, 193, 195, 197, 198, 199, 206, 210, 214, 218, 220, 222, 230]
    + [238, 242, 246, 250, 252, 254]

  // Class IV, the rules whose pattern grows complex local structures.
  const Class4: seq<int> :=
    [30, 45, 75, 86, 89, 101, 107, 121, 135, 149, 169, 225]

  // The four lists one after another; they turn out to list 0..255 once each.
  const Catalogue: seq<int> := Class1 + Class2 + Class3 + Class4

  function Members(c: WolframClass): seq<int> {
    match c
    case Emptied => Class1
    case Periodic => Class2
    case Structured => Class3
    case Chaotic => Class4
  }

  function Elements(s: seq<int>): set<int> {
    set x | x in s
  }

  // The integers 0 .. n-1 as a set.
  function Range(n: nat): (r: set<int>)
    ensures forall x :: x in r <==> 0 <= x < n
    ensures |r| == n
  {
    if n == 0 then {} else Range(n - 1) + {n - 1}
  }

  predicate Distinct(s: seq<int>) {
    forall i, j :: 0 <= i < j < |s| ==> s[i] != s[j]
  }

  // Math.round(|v| / 255 * 100): the share of the 255 rules, as a whole
  // percentage rounded half up.
  function FindPercentage(v: seq<int>): (pct: nat)
    ensures -255 < 2 * (255 * pct - 100 * |v|) <= 255
  {
    (200 * |v| + 255) / 510
  }

  /** The class of a rule, first list first; None (JavaScript's undefined)
      for a number found in no list. */
  function FindClass(rule: int): (r: Option<ClassData>)
    ensures r.Some? <==> 0 <= rule <= 255
    ensures r.Some? ==> rule in Members(r.value.cls)
    ensures r.Some? ==> r.value.percent == FindPercentage(Members(r.value.cls))
  {
    Classify(rule);
    if rule in Class1 then Some(ClassData(Emptied, FindPercentage(Class1)))
    else if rule in Class2 then Some(ClassData(Periodic, FindPercentage(Class2)))
    else if rule in Class3 then Some(ClassData(Structured, FindPercentage(Class3)))
    else if rule in Class4 then Some(ClassData(Chaotic, FindPercentage(Class4)))
    else None
  }

  /** Extra rarity of a mirrored image: the smaller the class, the more. */
  function FindExtraRarity(cls: WolframClass, mirrored: bool): (extra: nat)
    ensures !mirrored ==> extra == 0
    ensures mirrored ==> 25 <= extra <= 100 && extra % 25 == 0
  {
    if !mirrored then 0
    else match cls
      case Periodic => 25
      case Structured => 50
      case Emptied => 75
      case Chaotic => 100
  }

  /** The traits the sketch derives from a rule and the mirrored coin; None
      where reading the class of an unclassified rule would throw. */
  function Attributes(rule: int, mirrored: bool): (t: Option<Traits>)
    ensures t.Some? <==> 0 <= rule <= 255
    ensures t.Some? ==> rule in Members(t.value.cls)
    ensures t.Some? ==> t.value.boost == 100 - FindPercentage(Members(t.value.cls))
    ensures t.Some? ==> t.value.extraRarity == FindExtraRarity(t.value.cls, mirrored)
    ensures t.Some? ==> t.value.rule == rule && t.value.mirrored == mirrored
  {
    match FindClass(rule)
    case None => None
    case Some(data) =>
      Some(Traits(rule, data.cls, 100 - data.percent, mirrored,
                  FindExtraRarity(data.cls, mirrored)))
  }

  // ---------------------------------------------------------------------
  // The four lists partition 0..255.

  // Every rule number appears in some list.
  lemma Cover(rule: int)
    requires 0 <= rule <= 255
    ensures rule in Class1 || rule in Class2 || rule in Class3 || rule in Class4
  {
  }

  lemma {:induction false} ElementsCard(s: seq<int>)
    ensures |Elements(s)| <= |s|
    ensures |Elements(s)| == |s| ==> Distinct(s)
  {
    if s != [] {
      ElementsCard(s[1..]);
      assert Elements(s) == {s[0]} + Elements(s[1..]);
      if s[0] in s[1..] {
        assert Elements(s) == Elements(s[1..]);
      } else if |Elements(s)| == |s| {
        forall i, j | 0 <= i < j < |s| ensures s[i] != s[j] {
          if i > 0 {
            assert s[i] == s[1..][i - 1] && s[j] == s[1..][j - 1];
          } else {
            assert s[j] in s[1..];
          }
        }
      }
    }
  }

  // n entries that cover n distinct values list each value exactly once.
  lemma Pigeonhole(s: seq<int>, n: nat)
    requires |s| == n
    requires Range(n) <= Elements(s)
    ensures Distinct(s)
    ensures Elements(s) == Range(n)
    ensures forall x :: x in s ==> 0 <= x < n
  {
    ElementsCard(s);
    assert |Elements(s) - Range(n)| == |Elements(s)| - |Range(n)|;
    forall x | x in s ensures 0 <= x < n {
      assert x in Elements(s);
    }
  }

  lemma ClassSizes()
    ensures |Class1| == 16 && |Class2| == 158 && |Class3| == 70 && |Class4| == 12
  {
  }

  lemma CatalogueCovers()
    ensures Range(256) <= Elements(Catalogue)
  {
    forall r | r in Range(256) ensures r in Elements(Catalogue) {
      Cover(r);
    }
  }

  // Two separate stretches of a list without repeats share no value.
  lemma DistinctStretches(s: seq<int>, a: nat, b: nat, c: nat, d: nat, x: int)
    requires Distinct(s)
    requires a <= b <= c <= d <= |s|
    requires x in s[a..b]
    ensures x !in s[c..d]
  {
    var i :| 0 <= i < b - a && s[a..b][i] == x;
    assert s[a + i] == x;
  }

  lemma StretchesApart(s: seq<int>, a: nat, b: nat, c: nat, d: nat)
    requires Distinct(s)
    requires a <= b <= c <= d <= |s|
    ensures forall x :: x in s[a..b] ==> x !in s[c..d]
  {
    forall x | x in s[a..b] ensures x !in s[c..d] {
      DistinctStretches(s, a, b, c, d, x);
    }
  }

  // Where each of four lists sits in their concatenation.
  lemma Quarters(s: seq<int>, p1: seq<int>, p2: seq<int>, p3: seq<int>, p4: seq<int>)
    requires s == p1 + p2 + p3 + p4
    ensures s[0..|p1|] == p1
    ensures s[|p1|..|p1| + |p2|] == p2
    ensures s[|p1| + |p2|..|p1| + |p2| + |p3|] == p3
    ensures s[|p1| + |p2| + |p3|..|s|] == p4
  {
  }

  // The values of four lists are the values of their concatenation.
  lemma FourWayValues(s: seq<int>, p1: seq<int>, p2: seq<int>, p3: seq<int>, p4: seq<int>, x: int)
    requires s == p1 + p2 + p3 + p4
    ensures x in s <==> x in p1 || x in p2 || x in p3 || x in p4
  {
  }

  // Four lists whose entries are all in 0..n-1 hold only such numbers.
  lemma FourWayRange(s: seq<int>, p1: seq<int>, p2: seq<int>, p3: seq<int>, p4: seq<int>, n: nat)
    requires s == p1 + p2 + p3 + p4
    requires forall x :: x in s ==> 0 <= x < n
    ensures forall x :: x in p1 || x in p2 || x in p3 || x in p4 ==> 0 <= x < n
  {
    forall x | x in p1 || x in p2 || x in p3 || x in p4 ensures 0 <= x < n {
      FourWayValues(s, p1, p2, p3, p4, x);
    }
  }

  // Four lists whose concatenation has no repeats share no number.
  lemma FourWayDisjoint(s: seq<int>, p1: seq<int>, p2: seq<int>, p3: seq<int>, p4: seq<int>)
    requires s == p1 + p2 + p3 + p4
    requires Distinct(s)
    ensures forall x :: x in p1 ==> x !in p2 && x !in p3 && x !in p4
    ensures forall x :: x in p2 ==> x !in p3 && x !in p4
    ensures forall x :: x in p3 ==> x !in p4
  {
    Quarters(s, p1, p2, p3, p4);
    var o2, o3, o4, n := |p1|, |p1| + |p2|, |p1| + |p2| + |p3|, |s|;
    StretchesApart(s, 0, o2, o2, o3);
    StretchesApart(s, 0, o2, o3, o4);
    StretchesApart(s, 0, o2, o4, n);
    StretchesApart(s, o2, o3, o3, o4);
    StretchesApart(s, o2, o3, o4, n);
    StretchesApart(s, o3, o4, o4, n);
  }

  /**
   * Four lists whose n entries together cover 0..n-1 hold only numbers in
   * 0..n-1 and share no number.
   */
  lemma FourWayPartition(s: seq<int>, p1: seq<int>, p2: seq<int>, p3: seq<int>, p4: seq<int>, n: nat)
    requires s == p1 + p2 + p3 + p4
    requires |s| == n && Range(n) <= Elements(s)
    ensures forall x :: x in p1 || x in p2 || x in p3 || x in p4 ==> 0 <= x < n
    ensures forall x :: x in p1 ==> x !in p2 && x !in p3 && x !in p4
    ensures forall x :: x in p2 ==> x !in p3 && x !in p4
    ensures forall x :: x in p3 ==> x !in p4
  {
    Pigeonhole(s, n);
    FourWayRange(s, p1, p2, p3, p4, n);
    FourWayDisjoint(s, p1, p2, p3, p4);
  }

  /**
   * The four class lists partition the rule numbers: together they list
   * 0..255, each value once, and no value is in two lists.
   */
  lemma Partition()
    ensures Distinct(Catalogue) && Elements(Catalogue) == Range(256)
    ensures forall x :: x in Class1 || x in Class2 || x in Class3 || x in Class4 ==> 0 <= x < 256
    ensures forall x :: x in Class1 ==> x !in Class2 && x !in Class3 && x !in Class4
    ensures forall x :: x in Class2 ==> x !in Class3 && x !in Class4
    ensures forall x :: x in Class3 ==> x !in Class4
  {
    ClassSizes();
    CatalogueCovers();
    FourWayPartition(Catalogue, Class1, Class2, Class3, Class4, 256);
    Pigeonhole(Catalogue, 256);
  }

  /** No rule number appears in two lists. */
  lemma Disjoint(rule: int, c: WolframClass, d: WolframClass)
    requires rule in Members(c) && rule in Members(d)
    ensures c == d
  {
    Partition();
  }

  /** Every listed number is a rule number. */
  lemma InRange(rule: int, c: WolframClass)
    requires rule in Members(c)
    ensures 0 <= rule <= 255
  {
    Partition();
  }

  // The facts FindClass rests on, as one statement about the four lists.
  lemma Classify(rule: int)
    ensures (0 <= rule <= 255) <==>
      (rule in Class1 || rule in Class2 || rule in Class3 || rule in Class4)
  {
    if 0 <= rule <= 255 {
      Cover(rule);
    } else {
      if rule in Class1 { InRange(rule, Emptied); }
      if rule in Class2 { InRange(rule, Periodic); }
      if rule in Class3 { InRange(rule, Structured); }
      if rule in Class4 { InRange(rule, Chaotic); }
    }
  }

  /** Every rule number has exactly one class, and the order in which
      findClass tries the lists does not matter. */
  lemma FindClassUnique(rule: int, c: WolframClass)
    ensures rule in Members(c) <==>
      FindClass(rule) == Some(ClassData(c, FindPercentage(Members(c))))
  {
    if rule in Members(c) {
      var r := FindClass(rule);
      InRange(rule, c);
      Disjoint(rule, c, r.value.cls);
    }
  }

  /** The four shares: 6, 62, 27 and 5 per cent. */
  lemma Percentages()
    ensures FindPercentage(Class1) == 6
    ensures FindPercentage(Class2) == 62
    ensures FindPercentage(Class3) == 27
    ensures FindPercentage(Class4) == 5
  {
    ClassSizes();
  }

  /** A larger list never gets a smaller share. */
  lemma PercentageMonotone(u: seq<int>, v: seq<int>)
    requires |u| <= |v|
    ensures FindPercentage(u) <= FindPercentage(v)
  {
  }

  /** Mirroring pays more the fewer rules share the class. */
  lemma ExtraRarityFavoursScarcity(c: WolframClass, d: WolframClass)
    requires |Members(c)| < |Members(d)|
    ensures FindExtraRarity(c, true) > FindExtraRarity(d, true)
  {
    ClassSizes();
  }

  /** Rule 30 is chaotic; its boost is 95, and 100 more once mirrored. */
  lemma Rule30()
    ensures Attributes(30, false) == Some(Traits(30, Chaotic, 95, false, 0))
    ensures Attributes(30, true) == Some(Traits(30, Chaotic, 95, true, 100))
  {
    FindClassUnique(30, Chaotic);
    Percentages();
  }
}
