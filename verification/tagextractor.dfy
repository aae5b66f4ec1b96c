/**
 `main` of the tag extractor: select the feature files of a directory
 listing, read each one, union the tags found in them, and return the union
 as a sorted list (the list the script writes as `{ "tags": [...] }`).

 The file system is a parameter: the directory listing is a sequence of
 entry names, and the readable files are a map from entry name to text. A
 feature name that is absent from the map is a file `readFileSync` fails
 on; the exception is not caught, so `main` stops there and writes nothing.
 */
module TagExtractor {

  import TagScan
  import FeatureFilter
  import TagOrder

  datatype Outcome =
    | Written(tags: seq<string>)
    | ReadFailed(name: string)

  /** `Array.from(allTags)`: the set's elements as an array without
      repetitions. The array is in the set's insertion order; the model
      leaves the order open, and `AscendingListingUnique` shows that the
      sorted list does not depend on it. */
  method SetToArray(s: set<string>) returns (xs: seq<string>)
    ensures TagOrder.Distinct(xs)
    ensures forall x :: x in xs <==> x in s
  {
    xs := [];
    var rest := s;
    while rest != {}
      invariant rest <= s
      invariant TagOrder.Distinct(xs)
      invariant forall x :: x in xs <==> x in s && x !in rest
      decreases rest
    {
      var x :| x in rest;
      xs := xs + [x];
      rest := rest - {x};
    }
  }

  /** The script from the directory listing to the tag list. On success the
      list is strictly ascending and holds exactly the tags found in at least
      one selected file; on failure the name is the first selected file that
      could not be read. */
  method ExtractCucumberTags(entries: seq<string>, files: map<string, string>) returns (r: Outcome)
    ensures r.ReadFailed? <==> exists f :: f in FeatureFilter.FeatureFiles(entries) && f !in files
    ensures r.ReadFailed? ==>
              exists i :: 0 <= i < |FeatureFilter.FeatureFiles(entries)| &&
                          FeatureFilter.FeatureFiles(entries)[i] == r.name && r.name !in files &&
                          forall j :: 0 <= j < i ==> FeatureFilter.FeatureFiles(entries)[j] in files
    ensures r.Written? ==> TagOrder.StrictlyAscending(r.tags)
    ensures r.Written? ==>
              forall t :: t in r.tags <==>
                exists f :: f in FeatureFilter.FeatureFiles(entries) && f in files && t in TagScan.ExtractTags(files[f])
  {
    var selected := FeatureFilter.FeatureFiles(entries);
    var allTags: set<string> := {};
    var i := 0;
    while i < |selected|
      invariant 0 <= i <= |selected|
      invariant forall j :: 0 <= j < i ==> selected[j] in files
      invariant forall t :: t in allTags <==>
                  exists j :: 0 <= j < i && selected[j] in files && t in TagScan.ExtractTags(files[selected[j]])
    {
      var name := selected[i];
      if name !in files {
        return ReadFailed(name);
      }
      allTags := allTags + TagScan.ExtractTags(files[name]);
      i := i + 1;
    }
    var unsorted := SetToArray(allTags);
    TagOrder.SortDistinct(unsorted);
    r := Written(TagOrder.Sort(unsorted));
    forall t ensures t in allTags <==>
        exists f :: f in selected && f in files && t in TagScan.ExtractTags(files[f]) {
      if f :| f in selected && f in files && t in TagScan.ExtractTags(files[f]) {
        var j :| 0 <= j < |selected| && selected[j] == f;
      }
    }
  }
}
