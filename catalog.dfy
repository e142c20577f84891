/** The chapter catalog, built once when the reader starts: the entries of
    the story folder whose names end in ".docx", in Python's `sorted` order.
    The folder listing itself is an input (`os.listdir` is not modelled). */
module Catalog {
  import opened Text

  const Extension: string := ".docx"

  /** The generator filter `f for f in listing if f.endswith(".docx")`,
      keeping the listing's order. */
  function DocxEntries(listing: seq<string>): (r: seq<string>)
    ensures forall x :: x in r <==> x in listing && EndsWith(x, Extension)
    ensures |r| <= |listing|
    decreases |listing|
  {
    if listing == [] then []
    else
      var rest := DocxEntries(listing[1..]);
      if EndsWith(listing[0], Extension) then [listing[0]] + rest else rest
  }

  /** Nondecreasing in Python's string order. */
  predicate Sorted(s: seq<string>) {
    forall i, j :: 0 <= i < j < |s| ==> LexLe(s[i], s[j])
  }

  predicate Distinct(s: seq<string>) {
    forall i, j :: 0 <= i < j < |s| ==> s[i] != s[j]
  }

  /** Puts `x` into a sorted sequence, before the first element it does not
      come after. */
  function Insert(x: string, s: seq<string>): (r: seq<string>)
    decreases |s|
  {
    if s == [] || LexLe(x, s[0]) then [x] + s
    else [s[0]] + Insert(x, s[1..])
  }

  lemma {:induction false} InsertPermutes(x: string, s: seq<string>)
    ensures multiset(Insert(x, s)) == multiset(s) + multiset{x}
    decreases |s|
  {
    if s != [] && !LexLe(x, s[0]) {
      InsertPermutes(x, s[1..]);
      assert s == [s[0]] + s[1..];
    }
  }

  lemma {:induction false} InsertSorted(x: string, s: seq<string>)
    requires Sorted(s)
    ensures Sorted(Insert(x, s))
    decreases |s|
  {
    if s == [] {
    } else if LexLe(x, s[0]) {
      var r := [x] + s;
      forall i, j | 0 <= i < j < |r| ensures LexLe(r[i], r[j]) {
        if i == 0 && j > 1 {
          LexLeTransitive(x, s[0], s[j - 1]);
        }
      }
    } else {
      InsertSorted(x, s[1..]);
      InsertPermutes(x, s[1..]);
      LexLeTotal(x, s[0]);
      var r := [s[0]] + Insert(x, s[1..]);
      forall j | 0 < j < |r| ensures LexLe(s[0], r[j]) {
        var y := r[j];
        assert y in multiset(Insert(x, s[1..]));
        assert y == x || y in multiset(s[1..]);
        if y != x {
          var k :| 0 <= k < |s[1..]| && s[1..][k] == y;
          assert s[k + 1] == y;
        }
      }
    }
  }

  /** Python's `sorted` on strings, as an insertion sort. Any stable or
      unstable sort gives the same sequence (`SortedUnique`). */
  function Sort(s: seq<string>): (r: seq<string>)
    ensures Sorted(r)
    ensures multiset(r) == multiset(s)
    decreases |s|
  {
    if s == [] then []
    else
      var rest := Sort(s[1..]);
      InsertSorted(s[0], rest);
      InsertPermutes(s[0], rest);
      assert s == [s[0]] + s[1..];
      Insert(s[0], rest)
  }

  /** The head of a sorted sequence comes no later than anything it holds. */
  lemma HeadIsLeast(a: seq<string>, x: string)
    requires Sorted(a) && x in multiset(a)
    ensures LexLe(a[0], x)
  {
    var i :| 0 <= i < |a| && a[i] == x;
    if i == 0 { assert x[..|x|] == x; }
  }

  lemma SortedTail(a: seq<string>)
    requires a != [] && Sorted(a)
    ensures Sorted(a[1..])
  {
  }

  lemma TailMultiset(a: seq<string>)
    requires a != []
    ensures multiset(a[1..]) == multiset(a) - multiset{a[0]}
  {
    assert a == [a[0]] + a[1..];
  }

  /** Two sorted sequences holding the same strings are equal: the sorted
      order of a catalog does not depend on how it was computed. */
  lemma {:induction false} SortedUnique(a: seq<string>, b: seq<string>)
    requires Sorted(a) && Sorted(b)
    requires multiset(a) == multiset(b)
    ensures a == b
    decreases |a|
  {
    assert |a| == |multiset(a)| == |multiset(b)| == |b|;
    if a != [] {
      HeadIsLeast(a, b[0]);
      HeadIsLeast(b, a[0]);
      LexLeAntisymmetric(a[0], b[0]);
      TailMultiset(a);
      TailMultiset(b);
      SortedTail(a);
      SortedTail(b);
      SortedUnique(a[1..], b[1..]);
      assert a == [a[0]] + a[1..] && b == [b[0]] + b[1..];
    }
  }

  /** The catalog: `sorted(f for f in listing if f.endswith(".docx"))`. It
      is sorted and holds exactly the listing's ".docx" names. */
  function Build(listing: seq<string>): (r: seq<string>)
    ensures Sorted(r)
    ensures forall x :: x in r <==> x in listing && EndsWith(x, Extension)
  {
    var d := DocxEntries(listing);
    var c := Sort(d);
    assert forall x :: x in c <==> x in d by {
      forall x ensures x in c <==> x in d {
        assert x in c <==> x in multiset(c);
        assert x in d <==> x in multiset(d);
      }
    }
    c
  }

  /** What the reader assumes of its catalog: sorted, free of repeats, and
      every entry a ".docx" name. */
  predicate WellFormed(chapters: seq<string>) {
    Sorted(chapters) && Distinct(chapters) &&
    forall k :: 0 <= k < |chapters| ==> EndsWith(chapters[k], Extension)
  }

  lemma {:induction false} DocxEntriesDistinct(listing: seq<string>)
    requires Distinct(listing)
    ensures Distinct(DocxEntries(listing))
    decreases |listing|
  {
    if listing != [] {
      var t := listing[1..];
      assert Distinct(t) by {
        forall i, j | 0 <= i < j < |t| ensures t[i] != t[j] {
          assert t[i] == listing[i + 1] && t[j] == listing[j + 1];
        }
      }
      DocxEntriesDistinct(t);
      assert listing[0] !in t;
    }
  }

  lemma DistinctByMultiset(s: seq<string>)
    requires forall x :: multiset(s)[x] <= 1
    ensures Distinct(s)
  {
    forall i, j | 0 <= i < j < |s| ensures s[i] != s[j] {
      assert s == s[..j] + s[j..];
      assert s[i] in s[..j] && s[j] in s[j..];
      assert multiset(s)[s[j]] == multiset(s[..j])[s[j]] + multiset(s[j..])[s[j]];
    }
  }

  lemma {:induction false} MultisetOfDistinct(s: seq<string>)
    requires Distinct(s)
    ensures forall x :: multiset(s)[x] <= 1
    decreases |s|
  {
    if s != [] {
      var t := s[1..];
      assert Distinct(t) by {
        forall i, j | 0 <= i < j < |t| ensures t[i] != t[j] {
          assert t[i] == s[i + 1] && t[j] == s[j + 1];
        }
      }
      MultisetOfDistinct(t);
      assert s == [s[0]] + t;
      assert s[0] !in t;
    }
  }

  /** A listing without repeats (a directory's, by nature) gives a catalog
      of the shape the reader assumes: sorted, without repeats, every entry a
      ".docx" name. */
  lemma BuildSpec(listing: seq<string>)
    ensures Distinct(listing) ==> WellFormed(Build(listing))
  {
    var d := DocxEntries(listing);
    var c := Build(listing);
    if Distinct(listing) {
      DocxEntriesDistinct(listing);
      MultisetOfDistinct(d);
      DistinctByMultiset(c);
    }
  }

  lemma {:induction false} DocxEntriesMultiset(listing: seq<string>, x: string)
    ensures multiset(DocxEntries(listing))[x] ==
            if EndsWith(x, Extension) then multiset(listing)[x] else 0
    decreases |listing|
  {
    if listing != [] {
      DocxEntriesMultiset(listing[1..], x);
      assert listing == [listing[0]] + listing[1..];
    }
  }

  /** The catalog depends only on which names the folder holds, not on the
      order in which the directory listing returns them. */
  lemma BuildIgnoresListingOrder(l1: seq<string>, l2: seq<string>)
    requires multiset(l1) == multiset(l2)
    ensures Build(l1) == Build(l2)
  {
    forall x ensures multiset(DocxEntries(l1))[x] == multiset(DocxEntries(l2))[x] {
      DocxEntriesMultiset(l1, x);
      DocxEntriesMultiset(l2, x);
    }
    assert multiset(DocxEntries(l1)) == multiset(DocxEntries(l2));
    SortedUnique(Build(l1), Build(l2));
  }

  /** The order is plain string order, not chapter-number order: a folder
      holding chapters 2 and 10 and a non-chapter file gives a catalog with
      chapter 10 first. */
  lemma ChapterTenSortsBeforeTwo()
    ensures Build(["Chapter 2.docx", "notes.txt", "Chapter 10.docx"]) ==
            ["Chapter 10.docx", "Chapter 2.docx"]
  {
    ChapterTenBeforeTwo();
    ChapterFilesKept();
    BuildOfTwo(["Chapter 2.docx", "notes.txt", "Chapter 10.docx"], "Chapter 10.docx", "Chapter 2.docx");
  }

  /** A listing with two ".docx" entries gives them in sorted order. */
  lemma BuildOfTwo(listing: seq<string>, x: string, y: string)
    requires DocxEntries(listing) == [y, x] && LexLe(x, y)
    ensures Build(listing) == [x, y]
  {
    var c := Build(listing);
    assert Sorted([x, y]);
    assert multiset(c) == multiset([y, x]) == multiset([x, y]);
    SortedUnique(c, [x, y]);
  }

  lemma ChapterTenBeforeTwo()
    ensures LexLe("Chapter 10.docx", "Chapter 2.docx")
  {
    assert "Chapter 10.docx" == "Chapter " + "10.docx";
    assert "Chapter 2.docx" == "Chapter " + "2.docx";
    LexLeCommonPrefix("Chapter ", "10.docx", "2.docx");
  }

  lemma ChapterFilesKept()
    ensures DocxEntries(["Chapter 2.docx", "notes.txt", "Chapter 10.docx"]) ==
            ["Chapter 2.docx", "Chapter 10.docx"]
  {
  }
}
