/**
 * The final component of a POSIX path, as `pathlib.Path(p).name` computes it:
 * the path is split on '/', empty and "." components are dropped, and the name
 * is the last remaining component, or "" when none remains.
 */
module Paths {

  /** A component that pathlib keeps: neither empty nor ".". */
  predicate IsKeptComponent(c: string) {
    c != [] && c != "."
  }

  /**
   * Scans `s` from its end; `tail` holds the characters of the component
   * being read, which lie just after `s`.
   */
  function Scan(s: string, tail: string): (name: string)
    requires '/' !in tail
    ensures '/' !in name
    ensures name != "."
    decreases |s|
  {
    if s == [] then
      if IsKeptComponent(tail) then tail else []
    else if s[|s| - 1] == '/' then
      if IsKeptComponent(tail) then tail else Scan(s[..|s| - 1], [])
    else
      Scan(s[..|s| - 1], [s[|s| - 1]] + tail)
  }

  function Basename(path: string): (name: string)
    ensures '/' !in name
    ensures name != "."
  {
    Scan(path, [])
  }

  /** Characters without a '/' are read into the current component. */
  lemma {:induction false} ScanWithinComponent(s: string, tail: string)
    requires '/' !in s && '/' !in tail
    requires IsKeptComponent(s + tail)
    ensures Scan(s, tail) == s + tail
    decreases |s|
  {
    if s != [] {
      var c := s[|s| - 1];
      assert s[..|s| - 1] + ([c] + tail) == s + tail;
      assert c in s;
      ScanWithinComponent(s[..|s| - 1], [c] + tail);
    }
  }

  /** A single component other than "" and "." is its own name. */
  lemma PlainNameIsItsOwnBasename(name: string)
    requires IsKeptComponent(name) && '/' !in name
    ensures Basename(name) == name
  {
    assert name + [] == name;
    ScanWithinComponent(name, []);
  }

  /** `Basename` applied to its own result changes nothing. */
  lemma BasenameIdempotent(path: string)
    ensures Basename(Basename(path)) == Basename(path)
  {
    var name := Basename(path);
    if name != [] {
      PlainNameIsItsOwnBasename(name);
    }
  }

  /** The scan of a key never reaches a directory placed before it, once it has found a name. */
  lemma {:induction false} ScanIgnoresDirectory(dir: string, key: string, tail: string)
    requires dir != [] && dir[|dir| - 1] == '/'
    requires '/' !in tail
    requires Scan(key, tail) != []
    ensures Scan(dir + key, tail) == Scan(key, tail)
    decreases |key|
  {
    if key == [] {
      assert dir + key == dir;
    } else {
      var k := |key| - 1;
      assert (dir + key)[|dir + key| - 1] == key[k];
      assert (dir + key)[..|dir + key| - 1] == dir + key[..k];
      if key[k] == '/' {
        if !IsKeptComponent(tail) {
          ScanIgnoresDirectory(dir, key[..k], []);
        }
      } else {
        ScanIgnoresDirectory(dir, key[..k], [key[k]] + tail);
      }
    }
  }

  /**
   * Whatever directory a key sits under, its name is the same: the directory
   * part of a path never reaches the name (unless the key itself has none).
   */
  lemma BasenameIgnoresDirectory(dir: string, key: string)
    requires dir != [] && dir[|dir| - 1] == '/'
    requires Basename(key) != []
    ensures Basename(dir + key) == Basename(key)
  {
    ScanIgnoresDirectory(dir, key, []);
  }
}
