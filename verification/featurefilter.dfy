/**
 The name filter of `getAllFeatureFiles`: of the entries a directory listing
 returns, keep those whose name ends in `.feature`, in listing order.
 */
module FeatureFilter {

  const FeatureSuffix: string := ".feature"

  /** JavaScript's `name.endsWith(suffix)`: case-sensitive, and true when the
      two are equal. */
  predicate EndsWith(name: string, suffix: string) {
    |suffix| <= |name| && name[|name| - |suffix| ..] == suffix
  }

  /** `readdirSync(dir).filter(f => f.endsWith('.feature'))`. */
  function FeatureFiles(names: seq<string>): (r: seq<string>)
    ensures forall f :: f in r <==> f in names && EndsWith(f, FeatureSuffix)
    ensures |r| <= |names|
  {
    if |names| == 0 then []
    else (if EndsWith(names[0], FeatureSuffix) then [names[0]] else []) + FeatureFiles(names[1..])
  }

  /** `EndsWith` holds exactly when the name is some stem followed by the suffix. */
  lemma EndsWithIffStem(name: string, suffix: string)
    ensures EndsWith(name, suffix) <==> exists stem :: name == stem + suffix
  {
    if EndsWith(name, suffix) {
      var stem := name[.. |name| - |suffix|];
      assert name == stem + suffix;
    }
    if stem :| name == stem + suffix {
      assert name[|name| - |suffix| ..] == suffix;
    }
  }

  /** The filter keeps a single name exactly when it ends in `.feature`. */
  lemma FeatureFilesSingleton(name: string)
    ensures FeatureFiles([name]) == if EndsWith(name, FeatureSuffix) then [name] else []
  {
    assert [name][1..] == [];
  }

  /** The filter distributes over concatenation of listings. With
      `FeatureFilesSingleton` this pins the filter down completely: the kept
      names come out in listing order, each as often as it was listed. */
  lemma {:induction false} FeatureFilesAppend(a: seq<string>, b: seq<string>)
    ensures FeatureFiles(a + b) == FeatureFiles(a) + FeatureFiles(b)
  {
    if |a| == 0 {
      assert a + b == b;
    } else {
      assert (a + b)[0] == a[0];
      assert (a + b)[1..] == a[1..] + b;
      FeatureFilesAppend(a[1..], b);
    }
  }

  /** Filtering twice is filtering once. */
  lemma {:induction false} FeatureFilesIdempotent(names: seq<string>)
    ensures FeatureFiles(FeatureFiles(names)) == FeatureFiles(names)
  {
    if |names| > 0 {
      var head := if EndsWith(names[0], FeatureSuffix) then [names[0]] else [];
      FeatureFilesIdempotent(names[1..]);
      FeatureFilesAppend(head, FeatureFiles(names[1..]));
      FeatureFilesSingleton(names[0]);
      if head == [] {
        assert FeatureFiles(head) == [];
      }
    }
  }

  /** A listing made only of feature files passes unchanged; one with none
      passes nothing. */
  lemma {:induction false} FeatureFilesAllOrNothing(names: seq<string>)
    ensures (forall i :: 0 <= i < |names| ==> EndsWith(names[i], FeatureSuffix)) ==> FeatureFiles(names) == names
    ensures (forall i :: 0 <= i < |names| ==> !EndsWith(names[i], FeatureSuffix)) ==> FeatureFiles(names) == []
  {
    if |names| > 0 {
      FeatureFilesAllOrNothing(names[1..]);
      assert names == [names[0]] + names[1..];
    }
  }

  /** Concrete names: the suffix test is exact and case-sensitive. */
  lemma FeatureNameExamples()
    ensures EndsWith("login.feature", FeatureSuffix)
    ensures EndsWith(".feature", FeatureSuffix)
    ensures !EndsWith("login.feature.bak", FeatureSuffix)
    ensures !EndsWith("LOGIN.FEATURE", FeatureSuffix)
    ensures !EndsWith("feature", FeatureSuffix)
  {
    assert "login.feature"[5..] == ".feature";
    assert "login.feature.bak"[17 - 8 ..][7] == 'k';
    assert "LOGIN.FEATURE"[13 - 8 ..][1] == 'F';
  }
}
