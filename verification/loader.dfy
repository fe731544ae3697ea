/** The class-loading bridge (SpigotExecutionControlProvider): the loader's
    name-to-bytecode registry (`RemoteClassLoader.classObjects`), the delegate's
    name-to-class map (`SpigotLoaderDelegate.klasses`) and the loader's URL
    search path, as one state. The JVM is not modelled: defining, resolving,
    loading and preparing classes and converting paths to URLs are answered by
    a `Jvm` oracle, and class values are opaque. */
module Loader {
  import opened Wrappers
  import opened Text

  newtype byte = x: int | 0 <= x < 256

  type Bytes = seq<byte>

  type Url = string

  /** `ExecutionControl.ClassBytecodes`. */
  datatype ClassBytecodes = ClassBytecodes(name: string, bytecodes: Bytes)

  /** A class value, tagged with where it came from. */
  datatype Klass =
    | Defined(name: string, bytes: Bytes)
    | HostClass(name: string)
    | UrlClass(name: string, url: Url)

  /** The JVM's answers.
      `defines(n, b)`: `defineClass` accepts bytes `b` for name `n`;
      `forName(n)`: `Class.forName(n)` finds a class;
      `urlHas(u, n)`: the location `u` holds a class file for `n`;
      `loadClass(reg, n)`: what `loader.loadClass(n)` yields with registry `reg`
      (`None` when it throws);
      `prepares(k)`: `k.getDeclaredMethods()` returns normally;
      `toUrl(p)`: the URL of the file path `p` (`None` when the conversion throws). */
  datatype Jvm = Jvm(
    defines: (string, Bytes) -> bool,
    forName: string -> bool,
    urlHas: (Url, string) -> bool,
    loadClass: (map<string, Bytes>, string) -> Option<Klass>,
    prepares: Klass -> bool,
    toUrl: string -> Option<Url>)

  datatype State = State(classObjects: map<string, Bytes>, klasses: map<string, Klass>, urls: seq<Url>)

  datatype LoadFault =
    | ClassNotFound(name: string)   // `ClassNotFoundException`
    | DefineFailure(name: string)   // `defineClass` rejecting the bytes

  // ---------------------------------------------------------------------------
  // RemoteClassLoader

  /** `delare`: record (or replace) the bytecode of one class, nothing else. */
  function Delare(st: State, name: string, bytes: Bytes): (r: State)
    ensures name in r.classObjects && r.classObjects[name] == bytes
    ensures forall n :: n != name ==>
      && (n in r.classObjects <==> n in st.classObjects)
      && (n in st.classObjects ==> r.classObjects[n] == st.classObjects[n])
    ensures r.klasses == st.klasses && r.urls == st.urls
  {
    st.(classObjects := st.classObjects[name := bytes])
  }

  /** Index of the first search-path entry holding a class file for `name`. */
  function FirstUrl(urls: seq<Url>, name: string, jvm: Jvm): (r: Option<nat>)
    ensures r.Some? ==>
      && r.value < |urls|
      && jvm.urlHas(urls[r.value], name)
      && forall k :: 0 <= k < r.value ==> !jvm.urlHas(urls[k], name)
    ensures r.None? ==> forall k :: 0 <= k < |urls| ==> !jvm.urlHas(urls[k], name)
  {
    if urls == [] then None
    else if jvm.urlHas(urls[0], name) then Some(0)
    else match FirstUrl(urls[1..], name, jvm)
      case None => None
      case Some(k) => Some(k + 1)
  }

  /** `RemoteClassLoader.findClass`: registered bytecode first, then a class the
      host already resolves, then the search path. */
  function FindClassRemote(st: State, name: string, jvm: Jvm): (r: Result<Klass, LoadFault>)
    ensures name in st.classObjects ==>
      r == if jvm.defines(name, st.classObjects[name])
           then Success(Defined(name, st.classObjects[name])) else Failure(DefineFailure(name))
    ensures name !in st.classObjects && jvm.forName(name) ==> r == Success(HostClass(name))
    ensures name !in st.classObjects && !jvm.forName(name) ==>
      && (r.Success? <==> exists k :: 0 <= k < |st.urls| && jvm.urlHas(st.urls[k], name))
      && (r.Success? ==> r == Success(UrlClass(name, st.urls[FirstUrl(st.urls, name, jvm).value])))
      && (r.Failure? ==> r.error == ClassNotFound(name))
  {
    if name in st.classObjects then
      var b := st.classObjects[name];
      if jvm.defines(name, b) then Success(Defined(name, b)) else Failure(DefineFailure(name))
    else if jvm.forName(name) then Success(HostClass(name))
    else match FirstUrl(st.urls, name, jvm)
      case Some(k) => Success(UrlClass(name, st.urls[k]))
      case None => Failure(ClassNotFound(name))
  }

  /** After `delare(name, bytes)` the loader defines `name` from exactly those
      bytes, whatever the host or the search path would have offered. */
  lemma DelareThenFind(st: State, name: string, bytes: Bytes, jvm: Jvm)
    ensures FindClassRemote(Delare(st, name, bytes), name, jvm)
      == if jvm.defines(name, bytes) then Success(Defined(name, bytes)) else Failure(DefineFailure(name))
  {
  }

  /** For a registered name neither the host nor the search path is consulted. */
  lemma RegisteredShadowsHost(st: State, name: string, jvm: Jvm, other: Jvm, urls: seq<Url>)
    requires name in st.classObjects
    requires jvm.defines(name, st.classObjects[name]) == other.defines(name, st.classObjects[name])
    ensures FindClassRemote(st, name, jvm) == FindClassRemote(st.(urls := urls), name, other)
  {
  }

  /** Extending the search path keeps the first match of the old path. */
  lemma {:induction false} FirstUrlExtend(urls: seq<Url>, more: seq<Url>, name: string, jvm: Jvm)
    requires FirstUrl(urls, name, jvm).Some?
    ensures FirstUrl(urls + more, name, jvm) == FirstUrl(urls, name, jvm)
  {
    if !jvm.urlHas(urls[0], name) {
      assert (urls + more)[1..] == urls[1..] + more;
      FirstUrlExtend(urls[1..], more, name, jvm);
    }
  }

  /** Appending entries to the search path never changes a class the loader
      already finds. */
  lemma ClasspathGrowthKeepsResolution(st: State, more: seq<Url>, name: string, jvm: Jvm)
    requires FindClassRemote(st, name, jvm).Success?
    ensures FindClassRemote(st.(urls := st.urls + more), name, jvm) == FindClassRemote(st, name, jvm)
  {
    if name !in st.classObjects && !jvm.forName(name) {
      FirstUrlExtend(st.urls, more, name, jvm);
    }
  }

  // ---------------------------------------------------------------------------
  // SpigotLoaderDelegate

  /** The registry after the first loop of `load`: each batch entry registered
      in index order. */
  function Declare(reg: map<string, Bytes>, batch: seq<ClassBytecodes>): (r: map<string, Bytes>)
    ensures forall n :: n in r <==> n in reg || exists i :: 0 <= i < |batch| && batch[i].name == n
    decreases |batch|
  {
    if batch == [] then reg
    else
      var last := batch[|batch| - 1];
      Declare(reg, batch[..|batch| - 1])[last.name := last.bytecodes]
  }

  /** A name is registered with the bytecode of its last entry in the batch. */
  lemma {:induction false} DeclareLastWins(reg: map<string, Bytes>, batch: seq<ClassBytecodes>, i: nat)
    requires i < |batch|
    requires forall j :: i < j < |batch| ==> batch[j].name != batch[i].name
    ensures Declare(reg, batch)[batch[i].name] == batch[i].bytecodes
    decreases |batch|
  {
    if i < |batch| - 1 {
      DeclareLastWins(reg, batch[..|batch| - 1], i);
    }
  }

  /** Names the batch does not mention keep their registered bytecode. */
  lemma {:induction false} DeclareKeepsOthers(reg: map<string, Bytes>, batch: seq<ClassBytecodes>, n: string)
    requires n in reg
    requires forall i :: 0 <= i < |batch| ==> batch[i].name != n
    ensures Declare(reg, batch)[n] == reg[n]
    decreases |batch|
  {
    if batch != [] {
      DeclareKeepsOthers(reg, batch[..|batch| - 1], n);
    }
  }

  /** The class map after the first `n` classes of the batch were loaded and
      recorded in index order. */
  function Record(klasses: map<string, Klass>, reg: map<string, Bytes>, cbcs: seq<ClassBytecodes>, n: nat, jvm: Jvm): map<string, Klass>
    requires n <= |cbcs|
    requires forall j :: 0 <= j < n ==> jvm.loadClass(reg, cbcs[j].name).Some?
  {
    if n == 0 then klasses
    else Record(klasses, reg, cbcs, n - 1, jvm)[cbcs[n - 1].name := jvm.loadClass(reg, cbcs[n - 1].name).value]
  }

  /** Recording only adds or replaces the entries of the recorded classes. */
  lemma {:induction false} RecordProperties(klasses: map<string, Klass>, reg: map<string, Bytes>, cbcs: seq<ClassBytecodes>, n: nat, jvm: Jvm)
    requires n <= |cbcs|
    requires forall j :: 0 <= j < n ==> jvm.loadClass(reg, cbcs[j].name).Some?
    ensures var r := Record(klasses, reg, cbcs, n, jvm);
      && klasses.Keys <= r.Keys
      && (forall j :: 0 <= j < n ==> cbcs[j].name in r && r[cbcs[j].name] == jvm.loadClass(reg, cbcs[j].name).value)
      && (forall m :: m in klasses && (forall j :: 0 <= j < n ==> cbcs[j].name != m) ==> r[m] == klasses[m])
      && (forall m :: m in r ==> m in klasses || exists j :: 0 <= j < n && cbcs[j].name == m)
    decreases n
  {
    if n > 0 {
      RecordProperties(klasses, reg, cbcs, n - 1, jvm);
    }
  }

  /** The class `loadClass` yields for `name` and its preparation both succeed. */
  predicate Installs(jvm: Jvm, reg: map<string, Bytes>, name: string) {
    jvm.loadClass(reg, name).Some? && jvm.prepares(jvm.loadClass(reg, name).value)
  }

  /** `SpigotLoaderDelegate.findClass`: only the classes `load` recorded. */
  function FindClass(st: State, name: string): (r: Result<Klass, LoadFault>)
    ensures r.Success? <==> name in st.klasses
    ensures r.Success? ==> r.value == st.klasses[name]
    ensures r.Failure? ==> r.error == ClassNotFound(name)
  {
    if name in st.klasses then Success(st.klasses[name]) else Failure(ClassNotFound(name))
  }

  /** The first loop of `load`: `delare` of every batch entry, in index order. */
  method Register(reg: map<string, Bytes>, cbcs: seq<ClassBytecodes>) returns (r: map<string, Bytes>)
    ensures r == Declare(reg, cbcs)
  {
    r := reg;
    var i := 0;
    while i < |cbcs|
      invariant 0 <= i <= |cbcs|
      invariant r == Declare(reg, cbcs[..i])
    {
      assert cbcs[..i + 1][..i] == cbcs[..i];
      r := r[cbcs[i].name := cbcs[i].bytecodes];
      i := i + 1;
    }
    assert cbcs[..|cbcs|] == cbcs;
  }

  /** The second loop of `load`: `count` classes were loaded and recorded before
      the loop stopped; class `i` is among them exactly when every earlier class
      was installed and `loadClass` succeeded on it. */
  method LoadInOrder(klasses: map<string, Klass>, reg: map<string, Bytes>, cbcs: seq<ClassBytecodes>, jvm: Jvm)
    returns (recorded: map<string, Klass>, count: nat, failed: bool)
    ensures count <= |cbcs|
    ensures forall j :: 0 <= j < count ==> jvm.loadClass(reg, cbcs[j].name).Some?
    ensures recorded == Record(klasses, reg, cbcs, count, jvm)
    ensures forall i :: 0 <= i < |cbcs| ==>
      (i < count <==> (forall j :: 0 <= j < i ==> Installs(jvm, reg, cbcs[j].name))
                      && jvm.loadClass(reg, cbcs[i].name).Some?)
    ensures !failed <==> forall i :: 0 <= i < |cbcs| ==> Installs(jvm, reg, cbcs[i].name)
  {
    recorded := klasses;
    count := 0;
    failed := false;
    while count < |cbcs|
      invariant count <= |cbcs|
      invariant forall j :: 0 <= j < count ==> Installs(jvm, reg, cbcs[j].name)
      invariant recorded == Record(klasses, reg, cbcs, count, jvm)
    {
      var klass := jvm.loadClass(reg, cbcs[count].name);
      if klass.None? {
        failed := true;
        return;
      }
      recorded := recorded[cbcs[count].name := klass.value];
      count := count + 1;
      if !jvm.prepares(klass.value) {
        failed := true;
        return;
      }
    }
  }

  /** The flags `load` reports: class `i` is marked loaded exactly when every
      earlier class was installed and `loadClass` succeeded on it. */
  predicate LoadFlags(jvm: Jvm, reg: map<string, Bytes>, cbcs: seq<ClassBytecodes>, loaded: seq<bool>) {
    && |loaded| == |cbcs|
    && forall i :: 0 <= i < |cbcs| ==>
         (loaded[i] <==> (forall j :: 0 <= j < i ==> Installs(jvm, reg, cbcs[j].name))
                         && jvm.loadClass(reg, cbcs[i].name).Some?)
  }

  /** Every class of the batch installs. */
  predicate AllInstall(jvm: Jvm, reg: map<string, Bytes>, cbcs: seq<ClassBytecodes>) {
    forall i :: 0 <= i < |cbcs| ==> Installs(jvm, reg, cbcs[i].name)
  }

  /** The class map after `load`: it only grows, every class marked loaded is
      findable as the class `loadClass` gave, entries of names not loaded are
      kept, and nothing else enters. */
  predicate RecordedLoads(before: State, after: State, cbcs: seq<ClassBytecodes>, loaded: seq<bool>, jvm: Jvm)
    requires |loaded| == |cbcs|
  {
    && before.klasses.Keys <= after.klasses.Keys
    && (forall i :: 0 <= i < |cbcs| && loaded[i] ==>
          && jvm.loadClass(after.classObjects, cbcs[i].name).Some?
          && FindClass(after, cbcs[i].name) == Success(jvm.loadClass(after.classObjects, cbcs[i].name).value))
    && (forall n :: n in before.klasses && (forall i :: 0 <= i < |cbcs| && loaded[i] ==> cbcs[i].name != n) ==>
          after.klasses[n] == before.klasses[n])
    && (forall n :: n in after.klasses ==>
          n in before.klasses || exists i :: 0 <= i < |cbcs| && loaded[i] && cbcs[i].name == n)
  }

  /** The flags are a true-prefix: once a class is not loaded, no later one is. */
  lemma LoadFlagsArePrefix(jvm: Jvm, reg: map<string, Bytes>, cbcs: seq<ClassBytecodes>, loaded: seq<bool>)
    requires LoadFlags(jvm, reg, cbcs, loaded)
    ensures forall i, j :: 0 <= i < j < |loaded| && loaded[j] ==> loaded[i]
  {
    forall i, j | 0 <= i < j < |loaded| && loaded[j]
      ensures loaded[i]
    {
      assert Installs(jvm, reg, cbcs[i].name);
    }
  }

  /** `load`: register every class of the batch, then load and prepare them in
      index order, stopping at the first throw. `loaded` is the flag array the
      `ClassInstallException` carries when `failed`; nothing is rolled back. */
  method Load(st: State, cbcs: seq<ClassBytecodes>, jvm: Jvm) returns (next: State, loaded: seq<bool>, failed: bool)
    ensures next.classObjects == Declare(st.classObjects, cbcs)
    ensures next.urls == st.urls
    ensures LoadFlags(jvm, next.classObjects, cbcs, loaded)
    ensures !failed <==> AllInstall(jvm, next.classObjects, cbcs)
    ensures RecordedLoads(st, next, cbcs, loaded, jvm)
  {
    var reg := Register(st.classObjects, cbcs);
    var klasses, count;
    klasses, count, failed := LoadInOrder(st.klasses, reg, cbcs, jvm);
    loaded := seq(|cbcs|, j requires 0 <= j < |cbcs| => j < count);
    RecordProperties(st.klasses, reg, cbcs, count, jvm);
    next := State(reg, klasses, st.urls);
  }

  /** The `loaded` flags `load` reports for a batch against the registry `reg`:
      class `i` is flagged when every earlier class installed and `loadClass`
      found class `i`. */
  function Reached(jvm: Jvm, reg: map<string, Bytes>, cbcs: seq<ClassBytecodes>): (r: seq<bool>)
    ensures LoadFlags(jvm, reg, cbcs, r)
  {
    seq(|cbcs|, i requires 0 <= i < |cbcs| =>
      (forall j :: 0 <= j < i ==> Installs(jvm, reg, cbcs[j].name))
      && jvm.loadClass(reg, cbcs[i].name).Some?)
  }

  /** `classesRedefined`: `load`, with its exception logged and swallowed. The
      class map ends as `load` leaves it, whether or not `load` threw. */
  method ClassesRedefined(st: State, cbcs: seq<ClassBytecodes>, jvm: Jvm) returns (next: State)
    ensures next.classObjects == Declare(st.classObjects, cbcs)
    ensures next.urls == st.urls
    ensures RecordedLoads(st, next, cbcs, Reached(jvm, next.classObjects, cbcs), jvm)
  {
    var loaded, failed;
    next, loaded, failed := Load(st, cbcs, jvm);
    var flags := Reached(jvm, next.classObjects, cbcs);
    assert forall i :: 0 <= i < |cbcs| ==> loaded[i] == flags[i];
    assert loaded == flags;
  }

  // ---------------------------------------------------------------------------
  // addToClasspath

  /** Drops the empty strings at the end, as `String.split` does. */
  function DropTrailingEmpty(xs: seq<string>): (r: seq<string>)
    ensures |r| <= |xs| && r == xs[..|r|]
    ensures r == [] || r[|r| - 1] != []
    ensures forall i :: |r| <= i < |xs| ==> xs[i] == []
  {
    if xs == [] || xs[|xs| - 1] != [] then xs else DropTrailingEmpty(xs[..|xs| - 1])
  }

  /** `cp.split(File.pathSeparator)` for a one-character separator that is not a
      regular-expression metacharacter. */
  function SplitPath(cp: string, sep: char): (r: seq<string>)
    ensures forall i :: 0 <= i < |r| ==> sep !in r[i]
    ensures |r| <= |SplitAll(cp, sep)| && r == SplitAll(cp, sep)[..|r|]
    ensures forall i :: |r| <= i < |SplitAll(cp, sep)| ==> SplitAll(cp, sep)[i] == []
  {
    if sep !in cp then [cp] else DropTrailingEmpty(SplitAll(cp, sep))
  }

  /** Java's `split` on the path separator: a path without the separator is
      its one piece, even when it is empty; otherwise no piece at the end is empty. */
  lemma SplitPathShape(cp: string, sep: char)
    ensures sep !in cp ==> SplitPath(cp, sep) == [cp]
    ensures sep in cp ==> var r := SplitPath(cp, sep); r == [] || r[|r| - 1] != []
  {
  }

  /** `URLClassLoader.addURL`: a URL already on the search path is ignored. */
  function AddUrl(urls: seq<Url>, u: Url): seq<Url> {
    if u in urls then urls else urls + [u]
  }

  predicate NoDuplicates(urls: seq<Url>) {
    forall i, j :: 0 <= i < j < |urls| ==> urls[i] != urls[j]
  }

  /** `us[i]` is new: not on `urls` and not earlier in `us`. */
  predicate FirstNew(urls: seq<Url>, us: seq<Url>, i: nat)
    requires i < |us|
  {
    us[i] !in urls && us[i] !in us[..i]
  }

  /** Whether `us[i]` is new only depends on `us` up to `i`. */
  lemma FirstNewPrefix(urls: seq<Url>, us: seq<Url>, n: nat, i: nat)
    requires i < n <= |us|
    ensures FirstNew(urls, us[..n], i) == FirstNew(urls, us, i)
  {
    assert us[..n][..i] == us[..i];
  }

  /** The indices of the new URLs of `us`, in increasing order. */
  function FreshIndices(urls: seq<Url>, us: seq<Url>): (r: seq<nat>)
    ensures forall k :: 0 <= k < |r| ==> r[k] < |us| && FirstNew(urls, us, r[k])
    ensures forall k, m :: 0 <= k < m < |r| ==> r[k] < r[m]
    ensures forall i :: 0 <= i < |us| && FirstNew(urls, us, i) ==> i in r
    decreases |us|
  {
    if us == [] then []
    else
      var n := |us| - 1;
      var idx := FreshIndices(urls, us[..n]);
      assert forall i :: 0 <= i < n ==> FirstNew(urls, us[..n], i) == FirstNew(urls, us, i) by {
        forall i | 0 <= i < n ensures FirstNew(urls, us[..n], i) == FirstNew(urls, us, i) {
          FirstNewPrefix(urls, us, n, i);
        }
      }
      if !FirstNew(urls, us, n) then idx
      else
        var r := idx + [n];
        assert forall i :: i in idx ==> i in r;
        r
  }

  /** The new URLs of `us`, each at its first occurrence, in the order of `us`. */
  function FreshUrls(urls: seq<Url>, us: seq<Url>): (r: seq<Url>)
    ensures |r| == |FreshIndices(urls, us)|
    ensures forall k :: 0 <= k < |r| ==> r[k] == us[FreshIndices(urls, us)[k]]
  {
    var idx := FreshIndices(urls, us);
    seq(|idx|, k requires 0 <= k < |idx| => us[idx[k]])
  }

  /** Adding URLs one by one: the old path stays a prefix. */
  function AddUrls(urls: seq<Url>, us: seq<Url>): (r: seq<Url>)
    ensures |urls| <= |r| && r[..|urls|] == urls
    decreases |us|
  {
    if us == [] then urls else AddUrl(AddUrls(urls, us[..|us| - 1]), us[|us| - 1])
  }

  /** Every added URL is on the result and nothing else is, and a path without
      duplicates stays so. */
  lemma {:induction false} AddUrlsMembers(urls: seq<Url>, us: seq<Url>)
    ensures var r := AddUrls(urls, us);
      && (forall u :: u in r <==> u in urls || u in us)
      && (NoDuplicates(urls) ==> NoDuplicates(r))
    decreases |us|
  {
    if us != [] {
      var init := us[..|us| - 1];
      AddUrlsMembers(urls, init);
      assert forall u :: u in us <==> u in init || u == us[|us| - 1];
    }
  }

  /** The fresh URLs of one more URL: the old ones, and the URL if it is new. */
  lemma FreshUrlsSnoc(urls: seq<Url>, us: seq<Url>)
    requires us != []
    ensures var n := |us| - 1;
      FreshUrls(urls, us) == FreshUrls(urls, us[..n]) + (if FirstNew(urls, us, n) then [us[n]] else [])
  {
    var n := |us| - 1;
    var init := us[..n];
    var before := FreshUrls(urls, init);
    var idx := FreshIndices(urls, init);
    assert forall k :: 0 <= k < |idx| ==> before[k] == init[idx[k]] == us[idx[k]];
    if FirstNew(urls, us, n) {
      assert FreshIndices(urls, us) == idx + [n];
    } else {
      assert FreshIndices(urls, us) == idx;
    }
  }

  /** The URLs join the search path in the order of `us`, each new one once, at
      its first occurrence: the path grows by exactly the fresh URLs. */
  lemma {:induction false} AddUrlsAppendsFresh(urls: seq<Url>, us: seq<Url>)
    ensures AddUrls(urls, us) == urls + FreshUrls(urls, us)
    decreases |us|
  {
    if us == [] {
      assert FreshUrls(urls, us) == [];
    } else {
      var n := |us| - 1;
      var init := us[..n];
      AddUrlsAppendsFresh(urls, init);
      FreshUrlsSnoc(urls, us);
      var acc := AddUrls(urls, init);
      assert us[n] in acc <==> us[n] in urls || us[n] in init by {
        AddUrlsMembers(urls, init);
      }
      assert AddUrls(urls, us) == AddUrl(acc, us[n]);
      if FirstNew(urls, us, n) {
        assert us[n] !in acc;
        assert FreshUrls(urls, us) == FreshUrls(urls, init) + [us[n]];
        assert acc + [us[n]] == urls + (FreshUrls(urls, init) + [us[n]]);
      } else {
        assert us[n] in acc;
        assert FreshUrls(urls, us) == FreshUrls(urls, init);
      }
    }
  }

  /** Number of leading paths that convert to URLs. */
  function Convertible(paths: seq<string>, jvm: Jvm): (n: nat)
    ensures n <= |paths|
    ensures forall k :: 0 <= k < n ==> jvm.toUrl(paths[k]).Some?
    ensures n < |paths| ==> jvm.toUrl(paths[n]).None?
  {
    if paths == [] || jvm.toUrl(paths[0]).None? then 0 else 1 + Convertible(paths[1..], jvm)
  }

  /** The URLs of paths that all convert. */
  function UrlsOf(paths: seq<string>, jvm: Jvm): (r: seq<Url>)
    requires forall k :: 0 <= k < |paths| ==> jvm.toUrl(paths[k]).Some?
    ensures |r| == |paths|
    ensures forall k :: 0 <= k < |paths| ==> r[k] == jvm.toUrl(paths[k]).value
    decreases |paths|
  {
    if paths == [] then []
    else
      var n := |paths| - 1;
      assert forall k :: 0 <= k < n ==> paths[..n][k] == paths[k];
      UrlsOf(paths[..n], jvm) + [jvm.toUrl(paths[n]).value]
  }

  /** Adding one more URL after a list of them. */
  lemma AddUrlsSnoc(urls: seq<Url>, us: seq<Url>, u: Url)
    ensures AddUrls(urls, us + [u]) == AddUrl(AddUrls(urls, us), u)
  {
    assert (us + [u])[..|us|] == us;
  }

  /** The loop of `addToClasspath` stops at the first path that does not convert,
      or after the last path: exactly after the convertible prefix. */
  lemma {:induction false} ConvertibleStops(paths: seq<string>, jvm: Jvm, i: nat)
    requires i <= |paths|
    requires forall k :: 0 <= k < i ==> jvm.toUrl(paths[k]).Some?
    requires i == |paths| || jvm.toUrl(paths[i]).None?
    ensures Convertible(paths, jvm) == i
    decreases i
  {
    if i > 0 {
      ConvertibleStops(paths[1..], jvm, i - 1);
    }
  }

  /** The loop of `addToClasspath`: each path's URL is added in turn, until the
      first path that does not convert. Returns the URLs and how many paths
      were added. */
  method AddLeading(urls: seq<Url>, paths: seq<string>, jvm: Jvm) returns (r: seq<Url>, n: nat)
    ensures n == Convertible(paths, jvm)
    ensures r == AddUrls(urls, UrlsOf(paths[..n], jvm))
  {
    r := urls;
    n := 0;
    while n < |paths|
      invariant 0 <= n <= |paths|
      invariant forall k :: 0 <= k < n ==> jvm.toUrl(paths[k]).Some?
      invariant r == AddUrls(urls, UrlsOf(paths[..n], jvm))
    {
      var u := jvm.toUrl(paths[n]);
      if u.None? {
        break;
      }
      forall k | 0 <= k < n + 1
        ensures jvm.toUrl(paths[k]).Some?
      {
        if k == n { assert jvm.toUrl(paths[k]) == u; }
      }
      assert paths[..n + 1][..n] == paths[..n];
      AddUrlsSnoc(urls, UrlsOf(paths[..n], jvm), u.value);
      r := AddUrl(r, u.value);
      n := n + 1;
    }
    ConvertibleStops(paths, jvm, n);
  }

  /** `addToClasspath`: the URLs of the paths are added in order; the first path
      that fails to convert aborts with an `InternalException`, and the URLs
      added before it stay. */
  method AddToClasspath(st: State, cp: string, sep: char, jvm: Jvm) returns (next: State, failed: bool)
    ensures next.classObjects == st.classObjects && next.klasses == st.klasses
    ensures var paths := SplitPath(cp, sep);
      && (failed <==> exists k :: 0 <= k < |paths| && jvm.toUrl(paths[k]).None?)
      && next.urls == AddUrls(st.urls, UrlsOf(paths[..Convertible(paths, jvm)], jvm))
    ensures |st.urls| <= |next.urls| && next.urls[..|st.urls|] == st.urls
  {
    var paths := SplitPath(cp, sep);
    var urls, n := AddLeading(st.urls, paths, jvm);
    failed := n < |paths|;
    next := st.(urls := urls);
  }
}
