/**
 The book name and the output file name derived from a publication folder's
 name (`folder_name.replace('.epub', '')` and `f"{book_name}.epub"`).
 */
module BookName {
  import opened Paths

  const EpubSuffix: string := ".epub"

  /**
   Python's `s.replace(pat, '')` with a non-empty `pat`: one pass from left to
   right that deletes each occurrence it meets and resumes after it, so
   occurrences never overlap and text that only forms an occurrence once
   another is deleted is kept.
   */
  function DeleteAll(s: string, pat: string): string
    requires |pat| > 0
    decreases |s|
  {
    if |s| < |pat| then s
    else if s[..|pat|] == pat then DeleteAll(s[|pat|..], pat)
    else [s[0]] + DeleteAll(s[1..], pat)
  }

  predicate OccursAt(pat: string, s: string, i: int) {
    0 <= i && i + |pat| <= |s| && s[i..i + |pat|] == pat
  }

  predicate OccursIn(pat: string, s: string) {
    exists i :: 0 <= i <= |s| && OccursAt(pat, s, i)
  }

  /** The book name of line 18: the folder name with every `.epub` deleted, never longer. */
  function BookNameOf(folderName: Name): (b: string)
    ensures |b| <= |folderName|
  {
    DeleteAllShrinks(folderName, EpubSuffix);
    DeleteAll(folderName, EpubSuffix)
  }

  /** Deleting never lengthens the text. */
  lemma {:induction false} DeleteAllShrinks(s: string, pat: string)
    requires |pat| > 0
    ensures |DeleteAll(s, pat)| <= |s|
    decreases |s|
  {
    if |s| >= |pat| {
      if s[..|pat|] == pat {
        DeleteAllShrinks(s[|pat|..], pat);
      } else {
        DeleteAllShrinks(s[1..], pat);
      }
    }
  }

  /** The output file `<book>.epub` of line 20: one `.epub` more than the book name. */
  function OutputFileName(bookName: string): (n: Name)
    ensures |n| == |bookName| + |EpubSuffix|
    ensures n[..|bookName|] == bookName && n[|bookName|..] == EpubSuffix
  {
    bookName + EpubSuffix
  }

  /** Text without an occurrence of the pattern passes through unchanged. */
  lemma {:induction false} DeleteAllWithoutOccurrence(s: string, pat: string)
    requires |pat| > 0 && !OccursIn(pat, s)
    ensures DeleteAll(s, pat) == s
    decreases |s|
  {
    if |s| >= |pat| {
      assert !OccursAt(pat, s, 0);
      assert s[0..|pat|] == s[..|pat|];
      assert !OccursIn(pat, s[1..]) by {
        forall i | OccursAt(pat, s[1..], i) ensures false {
          assert s[1..][i..i + |pat|] == s[i + 1..i + 1 + |pat|];
          assert OccursAt(pat, s, i + 1);
        }
      }
      DeleteAllWithoutOccurrence(s[1..], pat);
      assert s == [s[0]] + s[1..];
    }
  }

  /** Deleting never introduces a character: every character of the result comes from the input. */
  lemma {:induction false} DeleteAllKeepsCharacters(s: string, pat: string)
    requires |pat| > 0
    ensures forall c :: c in DeleteAll(s, pat) ==> c in s
    decreases |s|
  {
    if |s| >= |pat| {
      if s[..|pat|] == pat {
        DeleteAllKeepsCharacters(s[|pat|..], pat);
      } else {
        DeleteAllKeepsCharacters(s[1..], pat);
      }
    }
  }

  /**
   Every occurrence of `.epub` is deleted, wherever it stands: the suffix
   cannot overlap itself, so an occurrence between `a` and `b` is met by the
   scan and removed whatever `a` ends with.
   */
  lemma {:induction false} DeleteEpubBetween(a: string, b: string)
    ensures DeleteAll(a + EpubSuffix + b, EpubSuffix) == DeleteAll(a, EpubSuffix) + DeleteAll(b, EpubSuffix)
    decreases |a|
  {
    var s := a + EpubSuffix + b;
    if |a| == 0 {
      assert s[..5] == EpubSuffix && s[5..] == b;
    } else if |a| < 5 {
      assert s[|a|] == '.';
      assert s[..5] != EpubSuffix by {
        assert s[..5][|a|] == s[|a|];
      }
      assert s[1..] == a[1..] + EpubSuffix + b;
      DeleteEpubBetween(a[1..], b);
      assert DeleteAll(a[1..], EpubSuffix) == a[1..];
      assert a == [a[0]] + a[1..];
    } else if a[..5] == EpubSuffix {
      assert s[..5] == a[..5];
      assert s[5..] == a[5..] + EpubSuffix + b;
      DeleteEpubBetween(a[5..], b);
    } else {
      assert s[..5] == a[..5];
      assert s[1..] == a[1..] + EpubSuffix + b;
      DeleteEpubBetween(a[1..], b);
    }
  }

  /**
   For a folder named `<stem>.epub` whose stem holds no `.epub`, the book name
   is the stem and the output file takes the folder's own name.
   */
  lemma BookNameOfPlainFolder(stem: string)
    requires !OccursIn(EpubSuffix, stem)
    ensures BookNameOf(stem + EpubSuffix) == stem
    ensures OutputFileName(BookNameOf(stem + EpubSuffix)) == stem + EpubSuffix
  {
    DeleteEpubBetween(stem, "");
    assert stem + EpubSuffix + "" == stem + EpubSuffix;
    DeleteAllWithoutOccurrence(stem, EpubSuffix);
  }

  /** A folder name free of separators gives a book name free of separators. */
  lemma BookNameHasNoSeparator(folderName: Name)
    requires '/' !in folderName
    ensures '/' !in BookNameOf(folderName)
  {
    DeleteAllKeepsCharacters(folderName, EpubSuffix);
  }

  /** An inner `.epub` goes too, not only the trailing one. */
  lemma InnerOccurrenceDeleted()
    ensures BookNameOf("Vol.epub.One.epub") == "Vol.One"
  {
    var tail := ".One" + EpubSuffix + "";
    assert DeleteAll(tail, EpubSuffix) == ".One" by {
      DeleteEpubBetween(".One", "");
      assert DeleteAll(".One", EpubSuffix) == ".One";
      assert DeleteAll("", EpubSuffix) == "";
    }
    assert DeleteAll("Vol", EpubSuffix) == "Vol";
    calc {
      BookNameOf("Vol.epub.One.epub");
      { assert "Vol.epub.One.epub" == "Vol" + EpubSuffix + tail; }
      DeleteAll("Vol" + EpubSuffix + tail, EpubSuffix);
      { DeleteEpubBetween("Vol", tail); }
      "Vol" + ".One";
    }
  }

  /** The scan does not look again at text that a deletion brings together. */
  lemma DeletionCanFormNewOccurrence()
    ensures BookNameOf("A.e.epubpub.epub") == "A.epub"
  {
    var tail := "pub" + EpubSuffix + "";
    assert DeleteAll(tail, EpubSuffix) == "pub" by {
      DeleteEpubBetween("pub", "");
      assert DeleteAll("pub", EpubSuffix) == "pub";
      assert DeleteAll("", EpubSuffix) == "";
    }
    assert DeleteAll("A.e", EpubSuffix) == "A.e";
    calc {
      BookNameOf("A.e.epubpub.epub");
      { assert "A.e.epubpub.epub" == "A.e" + EpubSuffix + tail; }
      DeleteAll("A.e" + EpubSuffix + tail, EpubSuffix);
      { DeleteEpubBetween("A.e", tail); }
      "A.e" + "pub";
    }
  }
}
