/** The `varMap` of `parse`: lowercased record names to records, built
    from every record but the first (main.go:116-119). */
module NameTable {
  import opened LittleEndian
  import opened Errors
  import opened VarRecords

  /** strings.ToLower restricted to ASCII letters. */
  function LowerChar(c: char): char {
    if 'A' <= c <= 'Z' then (c as int + 32) as char else c
  }

  function Lower(s: string): (r: string)
    ensures |r| == |s|
  {
    seq(|s|, i requires 0 <= i < |s| => LowerChar(s[i]))
  }

  predicate IsLower(s: string) {
    forall i :: 0 <= i < |s| ==> !('A' <= s[i] <= 'Z')
  }

  /** string(bytes): one character per byte. */
  function AsString(b: seq<byte>): (s: string)
    ensures |s| == |b|
  {
    seq(|b|, i requires 0 <= i < |b| => b[i] as char)
  }

  /** strings.ToLower(v.Name()), the key a record is filed under. */
  function Key(v: VarHeader): (k: string)
    ensures IsLower(k) && |k| <= 32
    ensures Lower(k) == k
  {
    Lower(AsString(Name(v)))
  }

  /** `key` is the bytes of `name` read one character per byte, with the
      ASCII capitals A-Z (65..90) shifted to their lowercase letters. */
  predicate NameMatches(name: seq<byte>, key: string) {
    |name| == |key|
    && forall i :: 0 <= i < |name| ==>
         key[i] as int == name[i] || (65 <= name[i] <= 90 && key[i] as int == name[i] + 32)
  }

  /** A lowercase string is the key of a record exactly when it spells the
      record's Name() with its capitals lowercased. */
  lemma KeyOfBytes(v: VarHeader, key: string)
    requires IsLower(key)
    ensures Key(v) == key <==> NameMatches(Name(v), key)
  {
    var n := Name(v);
    if Key(v) == key {
      forall i | 0 <= i < |n|
        ensures key[i] as int == n[i] || (65 <= n[i] <= 90 && key[i] as int == n[i] + 32)
      {
        assert AsString(n)[i] == n[i] as char;
      }
    }
    if NameMatches(n, key) {
      forall i | 0 <= i < |n|
        ensures Key(v)[i] == key[i]
      {
        assert AsString(n)[i] == n[i] as char;
      }
    }
  }

  /** What inserting `vs` in order into an empty map leaves: a later record
      overwrites an earlier one with the same key. */
  function TableOf(vs: seq<VarHeader>): map<string, VarHeader>
  {
    if vs == [] then map[]
    else TableOf(vs[..|vs| - 1])[Key(vs[|vs| - 1]) := vs[|vs| - 1]]
  }

  /** The keys are exactly the keys of the records inserted. */
  lemma {:induction false} TableKeys(vs: seq<VarHeader>)
    ensures TableOf(vs).Keys == set i | 0 <= i < |vs| :: Key(vs[i])
  {
    if vs != [] {
      var init := vs[..|vs| - 1];
      var last := Key(vs[|vs| - 1]);
      TableKeys(init);
      var all := set i | 0 <= i < |vs| :: Key(vs[i]);
      var earlier := set i | 0 <= i < |init| :: Key(init[i]);
      forall k | k in all ensures k in earlier || k == last {
        var i :| 0 <= i < |vs| && Key(vs[i]) == k;
        if i < |init| {
          assert init[i] == vs[i];
        }
      }
      forall k | k in earlier ensures k in all {
        var i :| 0 <= i < |init| && Key(init[i]) == k;
        assert init[i] == vs[i];
      }
      assert all == earlier + {last};
    }
  }

  /** Last write wins: a key maps to the highest-index record carrying it. */
  lemma {:induction false} TableLastWins(vs: seq<VarHeader>, j: int)
    requires 0 <= j < |vs|
    requires forall j' :: j < j' < |vs| ==> Key(vs[j']) != Key(vs[j])
    ensures Key(vs[j]) in TableOf(vs) && TableOf(vs)[Key(vs[j])] == vs[j]
  {
    if j < |vs| - 1 {
      var init := vs[..|vs| - 1];
      assert init[j] == vs[j];
      forall j' | j < j' < |init| ensures Key(init[j']) != Key(init[j]) {
        assert init[j'] == vs[j'];
      }
      TableLastWins(init, j);
    }
  }

  /** Every key is already lowercase. */
  lemma TableKeysLower(vs: seq<VarHeader>, k: string)
    requires k in TableOf(vs)
    ensures IsLower(k)
  {
    TableKeys(vs);
  }

  /** The loop `for _, v := range varHeaders[1:] { varMap[Key(v)] = v }`;
      the slice fails when there is no record at all. */
  method BuildVarMap(varHeaders: seq<VarHeader>) returns (r: Result<map<string, VarHeader>>)
    ensures r.Ok? <==> |varHeaders| >= 1
    ensures r.Err? ==> r.error == NoVarRecords
    ensures r.Ok? ==> r.value == TableOf(varHeaders[1..])
  {
    if |varHeaders| < 1 {
      return Err(NoVarRecords);
    }
    var varMap: map<string, VarHeader> := map[];
    var i := 1;
    while i < |varHeaders|
      invariant 1 <= i <= |varHeaders|
      invariant varMap == TableOf(varHeaders[1..i])
    {
      ghost var done := varHeaders[1..i + 1];
      assert done[..|done| - 1] == varHeaders[1..i] && done[|done| - 1] == varHeaders[i];
      varMap := varMap[Key(varHeaders[i]) := varHeaders[i]];
      i := i + 1;
    }
    assert varHeaders[1..i] == varHeaders[1..];
    return Ok(varMap);
  }

  /** Record 0 never contributes: unless a later record has the same key,
      its key is absent. */
  lemma FirstRecordExcluded(varHeaders: seq<VarHeader>)
    requires |varHeaders| >= 1
    requires forall i :: 1 <= i < |varHeaders| ==> Key(varHeaders[i]) != Key(varHeaders[0])
    ensures Key(varHeaders[0]) !in TableOf(varHeaders[1..])
  {
    var rest := varHeaders[1..];
    TableKeys(rest);
    assert forall i :: 0 <= i < |rest| ==> rest[i] == varHeaders[i + 1];
  }

  /** Go's `varMap[key]`: the zero record when the key is absent. */
  function Lookup(varMap: map<string, VarHeader>, key: string): (v: VarHeader)
    ensures key in varMap ==> v == varMap[key]
    ensures key !in varMap ==> v == ZeroVarHeader && v.offset == 0
  {
    if key in varMap then varMap[key] else ZeroVarHeader
  }
}
