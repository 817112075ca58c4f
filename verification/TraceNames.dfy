/**
 File names in and around a trace directory.
 */
module TraceNames {

  /** What follows the last slash. */
  function Base(path: string): (b: string)
    ensures '/' !in b
  {
    if path == [] || path[|path| - 1] == '/' then []
    else Base(path[..|path| - 1]) + [path[|path| - 1]]
  }

  /** The path of an entry of a directory. */
  function Entry(dir: string, name: string): string { dir + "/" + name }

  lemma {:induction false} BaseOf(dir: string, name: string)
    requires '/' !in name
    ensures Base(Entry(dir, name)) == name
  {
    var path := Entry(dir, name);
    if name == [] {
      assert path[|path| - 1] == '/';
    } else {
      BaseOf(dir, name[..|name| - 1]);
      assert path[..|path| - 1] == Entry(dir, name[..|name| - 1]);
    }
  }

  /** How the reader of a trace finds the file a record names. */
  function Resolve(dir: string, name: string): string {
    if "/" <= name then name else Entry(dir, name)
  }

  /** is_in_trace_dir, a prefix test. */
  predicate InTrace(dir: string, name: string) { dir <= name }

  /** The file is an entry of the directory itself. */
  ghost predicate Child(dir: string, path: string) {
    exists name :: '/' !in name && path == Entry(dir, name)
  }

  /** Replacing a path by its last component is right exactly for the entries of the directory. */
  lemma RelativeNameIsRight(dir: string, path: string)
    ensures Resolve(dir, Base(path)) == path <==> Child(dir, path)
  {
    if name :| '/' !in name && path == Entry(dir, name) {
      BaseOf(dir, name);
    }
    assert Base(path) == [] || Base(path)[0] != '/';
  }

  /** The prefix test also accepts a file of a neighbouring directory, which then is looked up
      under a name that is not its own. */
  lemma NeighbourPassesPrefixTest()
    ensures InTrace("/t/a", "/t/a2/f") && Resolve("/t/a", Base("/t/a2/f")) != "/t/a2/f"
  {
    assert Base("/t/a2/f") == "f" by {
      BaseOf("/t/a2", "f");
      assert Entry("/t/a2", "f") == "/t/a2/f";
    }
  }

  predicate IsHardlink(path: string) { "mmap_hardlink_" <= Base(path) }

  /** A file that can stay where it is. */
  predicate Good(dir: string, path: string) { InTrace(dir, path) && !IsHardlink(path) }

  // ------------------------------------------------------------------ names of copies

  function Digit(n: nat): (c: char)
    requires n < 10
    ensures c != '/'
  {
    "0123456789"[n]
  }

  function Decimal(n: nat): (s: string)
    ensures '/' !in s && s != []
  {
    if n < 10 then [Digit(n)] else Decimal(n / 10) + [Digit(n % 10)]
  }

  lemma DigitInjective(m: nat, n: nat)
    requires m < 10 && n < 10 && Digit(m) == Digit(n)
    ensures m == n
  {
  }

  lemma {:induction false} DecimalInjective(m: nat, n: nat)
    requires Decimal(m) == Decimal(n)
    ensures m == n
  {
    var s, t := Decimal(m), Decimal(n);
    assert s[|s| - 1] == Digit(m % 10) && t[|t| - 1] == Digit(n % 10);
    DigitInjective(m % 10, n % 10);
    if m >= 10 && n >= 10 {
      assert s[..|s| - 1] == Decimal(m / 10) && t[..|t| - 1] == Decimal(n / 10);
      DecimalInjective(m / 10, n / 10);
    }
  }

  /** Skips to behind the next underscore. */
  function AfterUnderscore(s: string): (r: string)
    ensures '/' !in s ==> '/' !in r
  {
    if s == [] then [] else if s[0] == '_' then s[1..] else AfterUnderscore(s[1..])
  }

  function LastComponent(path: string): (r: string)
    ensures '/' !in r
  {
    if IsHardlink(path) then AfterUnderscore(Base(path)[|"mmap_hardlink_"|..]) else Base(path)
  }

  function CopyName(path: string, index: nat): (r: string)
    ensures '/' !in r && "mmap_pack_" <= r && "mmap_" <= r
  {
    "mmap_pack_" + Decimal(index) + "_" + LastComponent(path)
  }

  function CopyPath(dir: string, path: string, index: nat): string {
    Entry(dir, CopyName(path, index))
  }

  lemma CopyPathInjective(dir: string, path: string, i: nat, j: nat)
    requires CopyPath(dir, path, i) == CopyPath(dir, path, j)
    ensures i == j
  {
    var head, tail := dir + "/" + "mmap_pack_", "_" + LastComponent(path);
    hide Decimal, LastComponent;
    assert CopyPath(dir, path, i) == head + Decimal(i) + tail;
    assert CopyPath(dir, path, j) == head + Decimal(j) + tail;
    hide *;
    Middle(head, Decimal(i), Decimal(j), tail);
    DecimalInjective(i, j);
  }

  lemma Middle(head: string, a: string, b: string, tail: string)
    requires head + a + tail == head + b + tail
    ensures a == b
  {
    var p := head + a + tail;
    assert p[|head|..|p| - |tail|] == a;
    assert p[|head|..|p| - |tail|] == b;
  }

  lemma CopyPathIsGood(dir: string, path: string, index: nat)
    ensures var p := CopyPath(dir, path, index); Child(dir, p) && Good(dir, p) && Base(p) == CopyName(path, index)
  {
    BaseOf(dir, CopyName(path, index));
    assert CopyName(path, index)[5] == 'p' && "mmap_hardlink_"[5] == 'h';
  }
}
