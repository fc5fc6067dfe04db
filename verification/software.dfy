/** A software requirement of a node (seedemu/core/NodeSoftware.py): a
    name, and optionally an executable install script. Without a script
    the name is handed to the package manager. */
module Software {
  import opened Wrappers
  import opened Strings
  import opened NodeFiles

  datatype Software = Software(name: string, installScript: Option<NodeFile>)

  /** Software built by the constructor: any script is executable. */
  predicate Valid(s: Software)
  {
    s.installScript.Some? ==> s.installScript.value.executable
  }

  /** The constructor: an install script must be an executable file. */
  function NewSoftware(name: string, installScript: Option<NodeFile>): (r: Result<Software>)
    ensures r.Failure? <==> installScript.Some? && !installScript.value.executable
    ensures r.Success? ==> Valid(r.value) && r.value.name == name && r.value.installScript == installScript
  {
    if installScript.Some? && !installScript.value.executable then Failure("Install scripts must be executable files")
    else Success(Software(name, installScript))
  }

  /** `usePackageManager`: installed by name, since there is no script. */
  predicate UsePackageManager(s: Software)
  {
    s.installScript.None?
  }

  /** A requirement built without a script goes to the package manager,
      and one built with a script never does. */
  lemma PackageManagerIffNoScript(name: string, script: Option<NodeFile>)
    ensures NewSoftware(name, script).Success? ==>
              (UsePackageManager(NewSoftware(name, script).value) <==> script.None?)
    ensures script.None? ==> NewSoftware(name, script).Success?
  {
  }

  /** `__eq__`: names equal and install scripts equal (as files). */
  predicate SameSoftware(a: Software, b: Software)
  {
    b.name == a.name
    && (match (a.installScript, b.installScript)
        case (None, None) => true
        case (Some(f), Some(g)) => SameFile(g, f)
        case _ => false)
  }

  /** The key `__hash__` feeds to `hash`: the name followed by `str()` of
      the script (`None` when absent). */
  function HashKey(s: Software, read: string -> string): string
  {
    s.name + (match s.installScript
              case None => "None"
              case Some(f) => Print(f, 0, read))
  }

  /** `__eq__` is structural equality, and equal requirements have equal
      hash keys, so a Python set or dict key deduplicates them exactly as
      a Dafny `set` of `Software` values does. */
  lemma SameSoftwareIsEquality(a: Software, b: Software, read: string -> string)
    ensures SameSoftware(a, b) <==> a == b
    ensures SameSoftware(a, b) ==> HashKey(a, read) == HashKey(b, read)
  {
    if SameSoftware(a, b) && a.installScript.Some? {
      SameFileIsEquality(b.installScript.value, a.installScript.value);
    }
  }

  /** `__gt__`: compares names only. */
  predicate Greater(a: Software, b: Software)
  {
    LexLess(b.name, a.name)
  }

  /** `>` ignores install scripts and is a strict order. */
  lemma GreaterByNameOnly(a: Software, b: Software, c: Software)
    ensures Greater(a, b) <==> Greater(a.(installScript := None), b.(installScript := None))
    ensures !Greater(a, a)
    ensures Greater(a, b) && Greater(b, c) ==> Greater(a, c)
    ensures a.name != b.name ==> Greater(a, b) || Greater(b, a)
  {
    LexIrreflexive(a.name);
    if Greater(a, b) && Greater(b, c) {
      LexTransitive(c.name, b.name, a.name);
    }
    if a.name != b.name {
      LexTotal(a.name, b.name);
    }
  }

  /** The names of the package-manager requirements, in list order. */
  function PackageNames(soft: seq<Software>): (r: seq<string>)
    ensures forall n :: n in r <==> exists s :: s in soft && UsePackageManager(s) && s.name == n
  {
    if |soft| == 0 then []
    else
      var rest := PackageNames(soft[1..]);
      assert forall s :: s in soft <==> s == soft[0] || s in soft[1..];
      if UsePackageManager(soft[0]) then [soft[0].name] + rest else rest
  }

  /** The requirements installed by script, in list order. */
  function Scripted(soft: seq<Software>): (r: seq<Software>)
    ensures forall s :: s in r <==> s in soft && !UsePackageManager(s)
    ensures forall i :: 0 <= i < |r| ==> r[i].installScript.Some?
    ensures |r| <= |soft|
  {
    if |soft| == 0 then []
    else
      var rest := Scripted(soft[1..]);
      assert forall s :: s in soft <==> s == soft[0] || s in soft[1..];
      if UsePackageManager(soft[0]) then rest else [soft[0]] + rest
  }
}
