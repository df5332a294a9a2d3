/** Inversion of the hand-sorted label folders (save_labels.py): one
    sub-directory per category, holding the images filed under it, becomes
    a map from each image to its categories, with the catch-all category
    "other" dropped. The script refuses to write the map while some image
    is filed under "other" alone. */
module Labels {
  import opened Results
  import opened Dataset

  /** One sub-directory of the labels folder: its name and the files in it. */
  datatype Category = Category(name: string, files: seq<string>)

  /** The catch-all category, never written to the output. */
  const Other: string := "other"

  function Names(listing: seq<Category>): (names: seq<string>)
    ensures |names| == |listing|
    ensures forall k :: 0 <= k < |listing| ==> names[k] == listing[k].name
  {
    seq(|listing|, k requires 0 <= k < |listing| => listing[k].name)
  }

  /** Category `c` of the listing holds `file`. */
  predicate FiledUnder(listing: seq<Category>, file: string, c: string) {
    exists k :: 0 <= k < |listing| && listing[k].name == c && file in listing[k].files
  }

  /** `list(set(all_files))`: every file of every category, once. */
  function AllFiles(listing: seq<Category>): (files: set<string>)
    ensures forall f :: f in files <==> exists k :: 0 <= k < |listing| && f in listing[k].files
  {
    set k, f | 0 <= k < |listing| && f in listing[k].files :: f
  }

  /** The names of the categories whose folder holds `file`, in listing order
      (the first `file_to_cats` of the script). */
  function CategoriesOf(listing: seq<Category>, file: string): (cats: seq<string>)
    ensures forall c :: c in cats <==> FiledUnder(listing, file, c)
    decreases |listing|
  {
    if listing == [] then []
    else
      var rest := CategoriesOf(listing[1..], file);
      assert forall c :: FiledUnder(listing, file, c) <==>
        (c == listing[0].name && file in listing[0].files) || FiledUnder(listing[1..], file, c) by {
        forall c | FiledUnder(listing[1..], file, c)
          ensures FiledUnder(listing, file, c)
        {
          var k :| 0 <= k < |listing[1..]| && listing[1..][k].name == c && file in listing[1..][k].files;
          assert listing[k + 1] == listing[1..][k];
        }
        forall c | FiledUnder(listing, file, c) && !(c == listing[0].name && file in listing[0].files)
          ensures FiledUnder(listing[1..], file, c)
        {
          var k :| 0 <= k < |listing| && listing[k].name == c && file in listing[k].files;
          assert listing[1..][k - 1] == listing[k];
        }
      }
      (if file in listing[0].files then [listing[0].name] else []) + rest
  }

  /** Distinct folder names give each file distinct categories. */
  lemma {:induction false} CategoriesOfDistinct(listing: seq<Category>, file: string)
    requires NoDuplicates(Names(listing))
    ensures NoDuplicates(CategoriesOf(listing, file))
    decreases |listing|
  {
    if listing != [] {
      var tail := listing[1..];
      assert Names(tail) == Names(listing)[1..];
      CategoriesOfDistinct(tail, file);
      var rest := CategoriesOf(tail, file);
      assert listing[0].name !in rest;
    }
  }

  /** The categories other than "other", in their order (the second
      `file_to_cats` of the script). */
  function WithoutOther(cats: seq<string>): (r: seq<string>)
    ensures forall c :: c in r <==> c in cats && c != Other
    decreases |cats|
  {
    if cats == [] then []
    else (if cats[0] == Other then [] else [cats[0]]) + WithoutOther(cats[1..])
  }

  lemma {:induction false} WithoutOtherDistinct(cats: seq<string>)
    requires NoDuplicates(cats)
    ensures NoDuplicates(WithoutOther(cats))
    decreases |cats|
  {
    if cats != [] {
      WithoutOtherDistinct(cats[1..]);
      assert cats[0] !in cats[1..];
    }
  }

  /** `a` is `b` with some elements deleted: its elements appear in `b` in
      the same order. */
  predicate Subsequence(a: seq<string>, b: seq<string>)
    decreases |b|
  {
    a == [] || (b != [] && ((a[0] == b[0] && Subsequence(a[1..], b[1..])) || Subsequence(a, b[1..])))
  }

  /** A file's categories, with "other" dropped, keep the order of the
      listing. */
  lemma {:induction false} KeptCategoriesInListingOrder(listing: seq<Category>, file: string)
    ensures Subsequence(WithoutOther(CategoriesOf(listing, file)), Names(listing))
    decreases |listing|
  {
    if listing != [] {
      var tail := listing[1..];
      var names := Names(listing);
      assert Names(tail) == names[1..];
      KeptCategoriesInListingOrder(tail, file);
      var cats := CategoriesOf(listing, file);
      var rest := CategoriesOf(tail, file);
      if file in listing[0].files {
        assert cats == [names[0]] + rest;
        assert cats[0] == names[0] && cats[1..] == rest;
        var kept := WithoutOther(cats);
        if names[0] == Other {
          assert kept == WithoutOther(rest);
        } else {
          assert kept == [names[0]] + WithoutOther(rest);
          assert kept[0] == names[0] && kept[1..] == WithoutOther(rest);
        }
      } else {
        assert cats == rest;
      }
    }
  }

  /** Filed under "other" and nothing else. */
  predicate OnlyOther(cats: seq<string>) {
    |cats| == 1 && cats[0] == Other
  }

  /** A file that is not filed under "other" alone keeps at least one
      category once "other" is dropped. */
  lemma {:induction false} KeepsACategory(listing: seq<Category>, file: string)
    requires NoDuplicates(Names(listing))
    requires file in AllFiles(listing) && !OnlyOther(CategoriesOf(listing, file))
    ensures WithoutOther(CategoriesOf(listing, file)) != []
  {
    var cats := CategoriesOf(listing, file);
    var k :| 0 <= k < |listing| && file in listing[k].files;
    assert FiledUnder(listing, file, listing[k].name);
    CategoriesOfDistinct(listing, file);
    if cats[0] == Other {
      assert cats[1] in cats && cats[1] != cats[0];
    } else {
      assert cats[0] in cats;
    }
  }

  /** The assertion the script fails with, and the files that trip it. */
  datatype LabelError = OnlyLabelledOther(files: set<string>)

  /** The second `file_to_cats`: every file with its categories, "other"
      dropped. */
  function LabelMap(listing: seq<Category>): (m: map<string, seq<string>>)
    ensures m.Keys == AllFiles(listing)
    ensures forall f :: f in m ==> m[f] == WithoutOther(CategoriesOf(listing, f))
  {
    var files := AllFiles(listing);
    var m := map f | f in files :: WithoutOther(CategoriesOf(listing, f));
    assert forall f :: f in m.Keys <==> f in files;
    m
  }

  /** The whole script on a listing of the labels folder with distinct
      folder names. */
  function SaveLabels(listing: seq<Category>): (r: Result<map<string, seq<string>>, LabelError>)
    requires NoDuplicates(Names(listing))
    ensures r.Failure? <==> exists f :: f in AllFiles(listing) && OnlyOther(CategoriesOf(listing, f))
    ensures r.Failure? ==> forall f :: f in r.error.files <==> f in AllFiles(listing) && OnlyOther(CategoriesOf(listing, f))
    ensures r.Success? ==> r.value.Keys == AllFiles(listing)
    ensures r.Success? ==> forall f, c :: f in r.value ==> (c in r.value[f] <==> c != Other && FiledUnder(listing, f, c))
    ensures r.Success? ==> forall f :: f in r.value ==> r.value[f] != [] && NoDuplicates(r.value[f])
    ensures r.Success? ==> forall f :: f in r.value ==> Subsequence(r.value[f], Names(listing))
  {
    var files := AllFiles(listing);
    var onlyOther := set f | f in files && OnlyOther(CategoriesOf(listing, f));
    if onlyOther != {} then
      Failure(OnlyLabelledOther(onlyOther))
    else
      assert forall f :: f in files && OnlyOther(CategoriesOf(listing, f)) ==> f in onlyOther;
      var m := LabelMap(listing);
      assert forall f :: f in m ==> m[f] != [] && NoDuplicates(m[f]) by {
        forall f | f in m
          ensures m[f] != [] && NoDuplicates(m[f])
        {
          assert f !in onlyOther;
          KeepsACategory(listing, f);
          CategoriesOfDistinct(listing, f);
          WithoutOtherDistinct(CategoriesOf(listing, f));
        }
      }
      assert forall f :: f in m ==> Subsequence(m[f], Names(listing)) by {
        forall f | f in m
          ensures Subsequence(m[f], Names(listing))
        {
          KeptCategoriesInListingOrder(listing, f);
        }
      }
      Success(m)
  }
}
