/** machine.py: the supported-machine table and `get_machine`, a classifier
    over the lower-cased fields of `platform.uname()`. The uname call itself
    is replaced by its three fields as input. */
module Machines {
  import opened Wrappers
  import opened Exceptions
  import opened Text

  /** The fields of `platform.uname()` the classifier reads. */
  datatype Uname = Uname(system: string, release: string, version: string)

  /** The dictionary `get_machine` returns. */
  datatype Machine = Machine(system: string, version: string)

  /** `supported_machines`: each supported system and its supported versions. */
  const Supported: map<string, seq<string>> := map["linux" := ["ubuntu", "wsl2"], "windows" := ["10"]]

  /** The keys of `supported_machines` in insertion order, which is the
      order the classifier iterates them in. */
  const SystemKeys: seq<string> := ["linux", "windows"]

  /** Iterating `SystemKeys` visits exactly the keys of `supported_machines`,
      so the system the classifier picks is one the table lists. */
  lemma SystemKeysAreTheTable()
    ensures forall k :: k in SystemKeys <==> k in Supported
  {
  }

  /** The index of the last key that occurs in `hay`: a loop that overwrites
      its answer on every hit keeps the last one. */
  function LastMatch(keys: seq<string>, hay: string): (r: Option<nat>)
    ensures r.Some? ==> r.value < |keys| && Contains(keys[r.value], hay)
    ensures r.Some? ==> forall j :: r.value < j < |keys| ==> !Contains(keys[j], hay)
    ensures r.None? ==> forall j :: 0 <= j < |keys| ==> !Contains(keys[j], hay)
    decreases |keys|
  {
    if |keys| == 0 then None
    else if Contains(keys[|keys| - 1], hay) then Some(|keys| - 1)
    else LastMatch(keys[..|keys| - 1], hay)
  }

  /** The key the overwriting loop ends with, or "" when none occurs. */
  function Pick(keys: seq<string>, hay: string): string
  {
    match LastMatch(keys, hay)
    case Some(i) => keys[i]
    case None => ""
  }

  /** Python's `info["release"] or info["version"]`: the release, unless it
      is empty. */
  function ReleaseOrVersion(u: Uname): string
  {
    if Lower(u.release) != "" then Lower(u.release) else Lower(u.version)
  }

  /** `get_machine` as written. */
  function GetMachine(u: Uname): (r: Result<Machine, Error>)
    ensures r.Failure? ==> r.error == NotSupportedMachineError
    ensures r.Success? ==> r.value.system in Supported && r.value.version in Supported[r.value.system]
    ensures r.Success? ==> Contains(r.value.system, Lower(u.system))
    ensures (r.Success? && r.value.system == "windows")
            <==> Contains("windows", Lower(u.system)) && Contains("10", Lower(u.release))
    ensures (r.Success? && r.value.system == "linux")
            <==> && Contains("linux", Lower(u.system)) && !Contains("windows", Lower(u.system))
                 && (Contains("ubuntu", ReleaseOrVersion(u)) || Contains("wsl2", ReleaseOrVersion(u)))
    ensures r.Success? && r.value.system == "linux"
            ==> (r.value.version == "wsl2" <==> Contains("wsl2", ReleaseOrVersion(u)))
  {
    SystemKeysAreTheTable();
    var info := Uname(Lower(u.system), Lower(u.release), Lower(u.version));
    var system := Pick(SystemKeys, info.system);
    var version :=
      if system == "linux" then Pick(Supported["linux"], if info.release != "" then info.release else info.version)
      else if system == "windows" then Pick(Supported["windows"], info.release)
      else "";
    if system == "" || version == "" then Failure(NotSupportedMachineError)
    else Success(Machine(system, version))
  }

  /** Matching is case-insensitive: classifying the lower-cased fields gives
      the same answer. */
  lemma GetMachineIgnoresCase(u: Uname)
    ensures GetMachine(u) == GetMachine(Uname(Lower(u.system), Lower(u.release), Lower(u.version)))
  {
    LowerIdempotent(u.system);
    LowerIdempotent(u.release);
    LowerIdempotent(u.version);
  }

  /** The uname version field is read only when the release is empty: with a
      non-empty release, any version gives the same answer. */
  lemma GetMachineIgnoresVersion(u: Uname, v: string)
    requires Lower(u.release) != ""
    ensures GetMachine(u) == GetMachine(u.(version := v))
  {
  }

  /** What `get_machine` evidently means to test for Linux: each supported
      version is looked for in the release and in the version field. */
  function GetMachineIntended(u: Uname): (r: Result<Machine, Error>)
    ensures r.Failure? ==> r.error == NotSupportedMachineError
    ensures r.Success? ==> r.value.system in Supported && r.value.version in Supported[r.value.system]
    ensures (r.Success? && r.value.system == "linux")
            <==> && Contains("linux", Lower(u.system)) && !Contains("windows", Lower(u.system))
                 && exists v :: v in Supported["linux"] && (Contains(v, Lower(u.release)) || Contains(v, Lower(u.version)))
    ensures (r.Success? && r.value.system == "windows")
            <==> Contains("windows", Lower(u.system)) && Contains("10", Lower(u.release))
  {
    SystemKeysAreTheTable();
    var info := Uname(Lower(u.system), Lower(u.release), Lower(u.version));
    var system := Pick(SystemKeys, info.system);
    var version :=
      if system == "linux" then PickEither(Supported["linux"], info.release, info.version)
      else if system == "windows" then Pick(Supported["windows"], info.release)
      else "";
    if system == "" || version == "" then Failure(NotSupportedMachineError)
    else Success(Machine(system, version))
  }

  /** The last key that occurs in either of two strings, or "". */
  function PickEither(keys: seq<string>, a: string, b: string): (r: string)
    ensures r != "" ==> r in keys
    ensures r == "" <==> forall j :: 0 <= j < |keys| ==> !Contains(keys[j], a) && !Contains(keys[j], b)
    requires forall j :: 0 <= j < |keys| ==> keys[j] != ""
    decreases |keys|
  {
    if |keys| == 0 then ""
    else
      var k := keys[|keys| - 1];
      if Contains(k, a) || Contains(k, b) then k else PickEither(keys[..|keys| - 1], a, b)
  }

  /** On a stock Ubuntu kernel the release names the kernel build and only
      the version field says "Ubuntu": `get_machine` as written refuses such
      a machine, the intended classifier accepts it. */
  lemma UbuntuKernelRefused(u: Uname)
    requires Contains("linux", Lower(u.system)) && !Contains("windows", Lower(u.system))
    requires Lower(u.release) != ""
    requires !Contains("ubuntu", Lower(u.release)) && !Contains("wsl2", Lower(u.release))
    requires Contains("ubuntu", Lower(u.version)) && !Contains("wsl2", Lower(u.version))
    ensures GetMachine(u) == Failure(NotSupportedMachineError)
    ensures GetMachineIntended(u) == Success(Machine("linux", "ubuntu"))
  {
  }

  lemma LowerExampleFields()
    ensures Lower("Linux") == "linux"
    ensures Lower("5.15.0-58-generic") == "5.15.0-58-generic"
    ensures Lower("#64-Ubuntu SMP") == "#64-ubuntu smp"
  {
  }

  lemma ExampleReleaseNotUbuntu()
    ensures !Contains("ubuntu", "5.15.0-58-generic")
  {
    FirstCharAbsent("ubuntu", "5.15.0-58-generic");
  }

  lemma ExampleReleaseNotWsl()
    ensures !Contains("wsl2", "5.15.0-58-generic")
  {
    FirstCharAbsent("wsl2", "5.15.0-58-generic");
  }

  lemma ExampleVersionUbuntu()
    ensures Contains("ubuntu", "#64-ubuntu smp")
  {
    assert "ubuntu" <= "#64-ubuntu smp"[4..];
  }

  lemma ExampleVersionNotWsl()
    ensures !Contains("wsl2", "#64-ubuntu smp")
  {
    FirstCharAbsent("wsl2", "#64-ubuntu smp");
  }

  lemma ExampleSystemIsLinux()
    ensures Contains("linux", "linux") && !Contains("windows", "linux")
  {
    ShorterNotContained("windows", "linux");
  }

  /** The uname of a stock Ubuntu 22.04 kernel, as an instance. */
  lemma UbuntuKernelExample()
    ensures GetMachine(Uname("Linux", "5.15.0-58-generic", "#64-Ubuntu SMP")) == Failure(NotSupportedMachineError)
    ensures GetMachineIntended(Uname("Linux", "5.15.0-58-generic", "#64-Ubuntu SMP")) == Success(Machine("linux", "ubuntu"))
  {
    LowerExampleFields();
    ExampleReleaseNotUbuntu();
    ExampleReleaseNotWsl();
    ExampleVersionUbuntu();
    ExampleVersionNotWsl();
    ExampleSystemIsLinux();
    UbuntuKernelRefused(Uname("Linux", "5.15.0-58-generic", "#64-Ubuntu SMP"));
  }
}
