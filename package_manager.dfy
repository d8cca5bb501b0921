/** The pure part of src/services/packageManager.ts: which package manager a
    project uses, in which order the managers are offered, and the command
    line that installs development dependencies.

    Detection looks only at which lockfiles exist in the project directory;
    here that is the set of file names present there.
 */
module PackageManagers {

  /** The package managers of src/types.ts. */
  datatype PackageManager = Pnpm | Npm | Yarn | Bun

  function Name(pm: PackageManager): string {
    match pm
    case Pnpm => "pnpm"
    case Npm => "npm"
    case Yarn => "yarn"
    case Bun => "bun"
  }

  /** allPackageManagers */
  const AllPackageManagers: seq<PackageManager> := [Pnpm, Npm, Yarn, Bun]

  // ---------------------------------------------------------------------
  // Detection (detectPackageManager)
  // ---------------------------------------------------------------------

  /** The lockfiles detection checks, in the order it checks them, with the manager each one names. */
  const LockfileOrder: seq<(string, PackageManager)> :=
    [("pnpm-lock.yaml", Pnpm), ("yarn.lock", Yarn), ("bun.lockb", Bun), ("package-lock.json", Npm)]

  /** detectPackageManager, given the names of the files in the project directory. */
  function DetectPackageManager(present: set<string>): (r: PackageManager)
    ensures r == Npm || exists i :: 0 <= i < |LockfileOrder| && LockfileOrder[i].0 in present && LockfileOrder[i].1 == r
  {
    if "pnpm-lock.yaml" in present then assert LockfileOrder[0] == ("pnpm-lock.yaml", Pnpm); Pnpm
    else if "yarn.lock" in present then assert LockfileOrder[1] == ("yarn.lock", Yarn); Yarn
    else if "bun.lockb" in present then assert LockfileOrder[2] == ("bun.lockb", Bun); Bun
    else if "package-lock.json" in present then Npm
    else Npm
  }

  /** A lockfile decides the result when no lockfile checked before it is present. */
  lemma DetectFirstLockfile(present: set<string>, i: nat)
    requires i < |LockfileOrder| && LockfileOrder[i].0 in present
    requires forall j :: 0 <= j < i ==> LockfileOrder[j].0 !in present
    ensures DetectPackageManager(present) == LockfileOrder[i].1
  {
    assert LockfileOrder[0].0 == "pnpm-lock.yaml" && LockfileOrder[1].0 == "yarn.lock";
    assert LockfileOrder[2].0 == "bun.lockb";
  }

  /** With none of the lockfiles present, detection falls back to npm. */
  lemma DetectNoLockfile(present: set<string>)
    requires forall i :: 0 <= i < |LockfileOrder| ==> LockfileOrder[i].0 !in present
    ensures DetectPackageManager(present) == Npm
  {
    assert LockfileOrder[0].0 == "pnpm-lock.yaml" && LockfileOrder[1].0 == "yarn.lock";
    assert LockfileOrder[2].0 == "bun.lockb";
  }

  /** Files other than the four lockfiles play no part in detection. */
  lemma DetectSeesOnlyLockfiles(present: set<string>, other: set<string>)
    requires forall i :: 0 <= i < |LockfileOrder| ==> (LockfileOrder[i].0 in present <==> LockfileOrder[i].0 in other)
    ensures DetectPackageManager(present) == DetectPackageManager(other)
  {
    assert LockfileOrder[0].0 == "pnpm-lock.yaml" && LockfileOrder[1].0 == "yarn.lock";
    assert LockfileOrder[2].0 == "bun.lockb" && LockfileOrder[3].0 == "package-lock.json";
  }

  // ---------------------------------------------------------------------
  // Choices (buildPackageManagerChoices)
  // ---------------------------------------------------------------------

  /** One entry of the selection prompt. */
  datatype Choice = Choice(value: PackageManager, labelText: string)

  /** The label of the detected manager (its green colouring is not modelled). */
  function AutoLabel(pm: PackageManager): string {
    "✔ " + Name(pm) + "（自动识别，回车默认选择）"
  }

  /** pms.filter(pm => pm !== x) */
  function Without(pms: seq<PackageManager>, x: PackageManager): (r: seq<PackageManager>)
    ensures x !in r
    ensures forall y :: y != x ==> multiset(r)[y] == multiset(pms)[y]
  {
    if pms == [] then []
    else
      assert pms == [pms[0]] + pms[1..];
      (if pms[0] == x then [] else [pms[0]]) + Without(pms[1..], x)
  }

  /** The position of pm in allPackageManagers. */
  function Rank(pm: PackageManager): nat {
    match pm
    case Pnpm => 0
    case Npm => 1
    case Yarn => 2
    case Bun => 3
  }

  /** Elements listed in strictly increasing rank: a subsequence of allPackageManagers. */
  predicate RankOrdered(pms: seq<PackageManager>) {
    forall i, j :: 0 <= i < j < |pms| ==> Rank(pms[i]) < Rank(pms[j])
  }

  /** Filtering keeps the survivors in their relative order. */
  lemma {:induction false} WithoutKeepsOrder(pms: seq<PackageManager>, x: PackageManager)
    requires RankOrdered(pms)
    ensures RankOrdered(Without(pms, x))
  {
    if pms != [] {
      var rest := Without(pms[1..], x);
      WithoutKeepsOrder(pms[1..], x);
      WithoutSubset(pms[1..], x);
      var r := Without(pms, x);
      if pms[0] != x {
        assert r == [pms[0]] + rest;
        forall i, j | 0 <= i < j < |r| ensures Rank(r[i]) < Rank(r[j]) {
          if i == 0 {
            assert r[j] == rest[j - 1] && r[j] in pms[1..];
          } else {
            assert r[i] == rest[i - 1] && r[j] == rest[j - 1];
          }
        }
      }
    }
  }

  /** Filtering only drops elements. */
  lemma {:induction false} WithoutSubset(pms: seq<PackageManager>, x: PackageManager)
    ensures forall y :: y in Without(pms, x) ==> y in pms
  {
    if pms != [] {
      WithoutSubset(pms[1..], x);
    }
  }

  /** The detected manager, then the others in the order of allPackageManagers. */
  function SortedManagers(detected: PackageManager): seq<PackageManager> {
    [detected] + Without(AllPackageManagers, detected)
  }

  /** buildPackageManagerChoices */
  function BuildPackageManagerChoices(detected: PackageManager): (r: seq<Choice>)
    ensures |r| > 0 && r[0] == Choice(detected, AutoLabel(detected))
    ensures forall i :: 1 <= i < |r| ==> r[i].value != detected && r[i].labelText == Name(r[i].value)
  {
    var sorted := SortedManagers(detected);
    seq(|sorted|, i requires 0 <= i < |sorted| =>
      Choice(sorted[i], if sorted[i] == detected then AutoLabel(sorted[i]) else Name(sorted[i])))
  }

  /** The values of the choices, in order. */
  function Values(choices: seq<Choice>): seq<PackageManager> {
    seq(|choices|, i requires 0 <= i < |choices| => choices[i].value)
  }

  /** Each manager occurs once in allPackageManagers, which lists them by rank. */
  lemma AllPackageManagersDistinct()
    ensures forall pm :: multiset(AllPackageManagers)[pm] == 1
    ensures RankOrdered(AllPackageManagers)
  {
    var m := multiset(AllPackageManagers);
    assert AllPackageManagers == [Pnpm] + [Npm] + [Yarn] + [Bun];
    assert m == multiset{Pnpm} + multiset{Npm} + multiset{Yarn} + multiset{Bun};
    forall pm ensures m[pm] == 1 {
      match pm
      case Pnpm => assert m[Pnpm] == 1;
      case Npm => assert m[Npm] == 1;
      case Yarn => assert m[Yarn] == 1;
      case Bun => assert m[Bun] == 1;
    }
  }

  /** Putting x in front of the others rearranges a list that holds x once. */
  lemma WithoutPermutation(pms: seq<PackageManager>, x: PackageManager)
    requires multiset(pms)[x] == 1
    ensures multiset([x] + Without(pms, x)) == multiset(pms)
  {
    var r := Without(pms, x);
    assert multiset([x] + r) == multiset{x} + multiset(r);
    forall y ensures multiset([x] + r)[y] == multiset(pms)[y] {
      if y == x {
        assert multiset(r)[x] == 0;
      }
    }
  }

  /** The choices list the managers of SortedManagers, in that order. */
  lemma ChoiceValues(detected: PackageManager)
    ensures Values(BuildPackageManagerChoices(detected)) == SortedManagers(detected)
  {
  }

  /** The choices offer every manager exactly once: a permutation of allPackageManagers. */
  lemma ChoicesArePermutation(detected: PackageManager)
    ensures |BuildPackageManagerChoices(detected)| == 4
    ensures multiset(Values(BuildPackageManagerChoices(detected))) == multiset(AllPackageManagers)
  {
    var sorted := SortedManagers(detected);
    ChoiceValues(detected);
    assert multiset(sorted) == multiset(AllPackageManagers) by {
      AllPackageManagersDistinct();
      WithoutPermutation(AllPackageManagers, detected);
    }
    assert |sorted| == |multiset(sorted)| == |multiset(AllPackageManagers)| == |AllPackageManagers|;
  }

  /** The detected manager is offered first, and the others keep the order of allPackageManagers. */
  lemma ChoicesOrder(detected: PackageManager)
    ensures |BuildPackageManagerChoices(detected)| > 0
    ensures BuildPackageManagerChoices(detected)[0].value == detected
    ensures RankOrdered(Values(BuildPackageManagerChoices(detected))[1..])
  {
    ChoiceValues(detected);
    var sorted := SortedManagers(detected);
    assert sorted[1..] == Without(AllPackageManagers, detected);
    assert RankOrdered(sorted[1..]) by {
      AllPackageManagersDistinct();
      WithoutKeepsOrder(AllPackageManagers, detected);
    }
  }

  /** The auto-detected label never reads as a bare manager name. */
  lemma AutoLabelIsNotName(p: PackageManager, q: PackageManager)
    ensures AutoLabel(p) != Name(q)
  {
    assert AutoLabel(p)[0] == '✔';
    assert Name(q)[0] != '✔';
  }

  /** Exactly one choice, the first, carries the auto-detected label; the others are labelled by name. */
  lemma ChoicesLabels(detected: PackageManager)
    ensures forall i :: 0 <= i < |BuildPackageManagerChoices(detected)| ==>
      var c := BuildPackageManagerChoices(detected)[i];
      (c.labelText == AutoLabel(c.value) <==> i == 0) && (i != 0 ==> c.labelText == Name(c.value))
  {
    var choices := BuildPackageManagerChoices(detected);
    forall i | 1 <= i < |choices| ensures choices[i].labelText != AutoLabel(choices[i].value) {
      AutoLabelIsNotName(choices[i].value, choices[i].value);
    }
  }

  // ---------------------------------------------------------------------
  // Install command (buildDevInstallCommand)
  // ---------------------------------------------------------------------

  /** A program and its arguments. */
  datatype Command = Command(command: string, args: seq<string>)

  /** buildDevInstallCommand */
  function BuildDevInstallCommand(pm: PackageManager, packages: seq<string>): (c: Command)
    ensures c.command == Name(pm)
    ensures |c.args| == |packages| + 2 && c.args[2..] == packages
    ensures c.args[..2] == match pm
      case Npm => ["install", "--save-dev"]
      case Yarn => ["add", "--dev"]
      case Bun => ["add", "--dev"]
      case Pnpm => ["add", "-D"]
  {
    match pm
    case Npm => Command("npm", ["install", "--save-dev"] + packages)
    case Yarn => Command("yarn", ["add", "--dev"] + packages)
    case Bun => Command("bun", ["add", "--dev"] + packages)
    case _ => Command("pnpm", ["add", "-D"] + packages)
  }
}
