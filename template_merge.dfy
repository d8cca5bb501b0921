/** How src/commands/init.ts applies a template to package.json: the merge
    spec of the base template and then that of the chosen template are
    merged into the manifest, in that order, and a spec file that does not
    exist is skipped.

    Reading and writing package.json and the spec files are left to the
    caller: a spec is given as Some(fields) when its file exists and None
    otherwise.
 */
module TemplateMerge {
  import opened Json
  import PackageJson
  import MergeProperties

  /** The manifest after the first n specs have been merged in, absent ones skipped. */
  function MergeSpecs(pkg: Fields, specs: seq<Option<Fields>>, n: nat): Fields
    requires n <= |specs|
  {
    if n == 0 then pkg
    else
      var before := MergeSpecs(pkg, specs, n - 1);
      if specs[n - 1].Some? then PackageJson.Merge(before, specs[n - 1].value) else before
  }

  lemma MergeSpecsNext(pkg: Fields, specs: seq<Option<Fields>>, i: nat, n: nat)
    requires i == n - 1 && 0 < n <= |specs|
    ensures MergeSpecs(pkg, specs, n) ==
      if specs[i].Some? then PackageJson.Merge(MergeSpecs(pkg, specs, i), specs[i].value)
      else MergeSpecs(pkg, specs, i)
  {
  }

  /** applyTemplateToPackageJson, between reading and writing the manifest. */
  method ApplyTemplateToPackageJson(pkg: Fields, base: Option<Fields>, template: Option<Fields>)
    returns (result: Fields)
    ensures result == MergeSpecs(pkg, [base, template], 2)
  {
    var mergeSpecs := [base, template];
    result := pkg;
    var i := 0;
    while i < |mergeSpecs|
      invariant 0 <= i <= |mergeSpecs|
      invariant result == MergeSpecs(pkg, mergeSpecs, i)
    {
      var next := i + 1;
      MergeSpecsNext(pkg, mergeSpecs, i, next);
      if mergeSpecs[i].Some? {
        result := PackageJson.ApplyPackageMergeSpec(result, mergeSpecs[i].value);
      }
      i := next;
    }
  }

  /** The base spec is merged first and the template spec on top of it; a missing file is skipped. */
  lemma TemplateMergeOrder(pkg: Fields, base: Option<Fields>, template: Option<Fields>)
    ensures var afterBase := if base.Some? then PackageJson.Merge(pkg, base.value) else pkg;
      MergeSpecs(pkg, [base, template], 2) ==
        if template.Some? then PackageJson.Merge(afterBase, template.value) else afterBase
  {
    MergeSpecsNext(pkg, [base, template], 0, 1);
    MergeSpecsNext(pkg, [base, template], 1, 2);
  }

  /** A scalar, array or null that the template spec sets wins over whatever the base spec set. */
  lemma TemplateSpecWins(pkg: Fields, base: Option<Fields>, template: Fields, k: string, v: Json)
    requires UniqueKeys(template) && Get(template, k) == Some(v) && !v.Obj?
    ensures Get(MergeSpecs(pkg, [base, Some(template)], 2), k) == Some(v)
  {
    TemplateMergeOrder(pkg, base, Some(template));
    var afterBase := if base.Some? then PackageJson.Merge(pkg, base.value) else pkg;
    MergeProperties.MergeStoresVerbatim(afterBase, template, k, v);
  }

  /** A key the template spec does not name keeps what the base spec left there. */
  lemma BaseSpecKept(pkg: Fields, base: Fields, template: Option<Fields>, k: string)
    requires template.Some? ==> UniqueKeys(template.value) && !HasKey(template.value, k)
    ensures Get(MergeSpecs(pkg, [Some(base), template], 2), k) == Get(PackageJson.Merge(pkg, base), k)
  {
    TemplateMergeOrder(pkg, Some(base), template);
    if template.Some? {
      MergeProperties.MergeKeyCases(PackageJson.Merge(pkg, base), template.value, k);
    }
  }
}
