/**
 * The uniform value cache of LLGLSLShader: for each uniform location the
 * words last uploaded, so that a setter can skip the GL call when the value
 * has not changed.  A value is a fixed number of 32-bit words (the bit
 * patterns of the floats, which is what memcmp and memcpy see): four for
 * the vector cache, nine and sixteen for the matrix caches.
 */
module ShaderUniforms {

  /** The bit pattern of one F32. */
  type Word = bv32

  /** One cache entry: a location and the value last uploaded to it. */
  datatype Entry = Entry(location: int, value: seq<Word>)

  /** std::find_if on the location: the index of the first entry for `location`, or |cache|. */
  function IndexOf(cache: seq<Entry>, location: int): (k: nat)
    ensures k <= |cache|
    ensures k < |cache| ==> cache[k].location == location
    ensures forall j | 0 <= j < k :: cache[j].location != location
  {
    if cache == [] then 0
    else if cache[0].location == location then 0
    else 1 + IndexOf(cache[1..], location)
  }

  /** Every value has the width of the cache's value type. */
  predicate WellSized(cache: seq<Entry>, width: nat)
  {
    forall i | 0 <= i < |cache| :: |cache[i].value| == width
  }

  /** No location appears twice. */
  predicate UniqueLocations(cache: seq<Entry>)
  {
    forall i, j | 0 <= i < j < |cache| :: cache[i].location != cache[j].location
  }

  /** The cache as a dictionary from location to value (the first entry for a location wins). */
  function AsMap(cache: seq<Entry>): map<int, seq<Word>>
  {
    if cache == [] then map[] else AsMap(cache[1..])[cache[0].location := cache[0].value]
  }

  /** memcpy of the first `n` words of `val` over `into`. */
  function Stored(val: seq<Word>, n: nat, into: seq<Word>): (r: seq<Word>)
    requires n <= |val| && n <= |into|
    ensures |r| == |into| && r[..n] == val[..n] && r[n..] == into[n..]
  {
    val[..n] + into[n..]
  }

  /** The new cache and the result of updateUniform. */
  datatype Outcome = Outcome(cache: seq<Entry>, changed: bool)

  /**
   * updateUniform<T, N>: with a program and a valid location, an absent
   * location is appended (its first `n` words from `val`, the rest those of
   * a default-constructed `blank`), a present one whose first `n` words
   * differ is overwritten; either reports a change.  Anything else leaves
   * the cache alone and reports none.
   */
  function UpdateSpec(cache: seq<Entry>, program: int, location: int, n: nat, val: seq<Word>, blank: seq<Word>): Outcome
    requires WellSized(cache, |blank|) && n <= |blank| && n <= |val|
  {
    if program <= 0 || location < 0 then Outcome(cache, false)
    else
      var k := IndexOf(cache, location);
      if k == |cache| then Outcome(cache + [Entry(location, Stored(val, n, blank))], true)
      else if cache[k].value[..n] != val[..n] then Outcome(cache[k := Entry(location, Stored(val, n, cache[k].value))], true)
      else Outcome(cache, false)
  }

  /** The value the cache holds for `location`, or the default when it holds none. */
  function Current(cache: seq<Entry>, location: int, blank: seq<Word>): seq<Word>
  {
    var m := AsMap(cache);
    if location in m then m[location] else blank
  }

  // ---- Lemmas about the cache as a dictionary ----

  /** The dictionary holds a location exactly when find_if finds it, with the value found. */
  lemma {:induction false} AsMapLookup(cache: seq<Entry>, location: int)
    ensures location in AsMap(cache) <==> IndexOf(cache, location) < |cache|
    ensures IndexOf(cache, location) < |cache| ==> AsMap(cache)[location] == cache[IndexOf(cache, location)].value
  {
    if cache != [] && cache[0].location != location {
      AsMapLookup(cache[1..], location);
    }
  }

  /** Appending an absent location adds it to the dictionary. */
  lemma {:induction false} AsMapAppend(cache: seq<Entry>, e: Entry)
    requires IndexOf(cache, e.location) == |cache|
    ensures AsMap(cache + [e]) == AsMap(cache)[e.location := e.value]
  {
    if cache == [] {
    } else {
      assert (cache + [e])[1..] == cache[1..] + [e];
      AsMapAppend(cache[1..], e);
    }
  }

  /** Overwriting the entry find_if found replaces that location's value in the dictionary. */
  lemma {:induction false} AsMapOverwrite(cache: seq<Entry>, k: nat, v: seq<Word>)
    requires k < |cache| && IndexOf(cache, cache[k].location) == k
    ensures AsMap(cache[k := Entry(cache[k].location, v)]) == AsMap(cache)[cache[k].location := v]
  {
    var location := cache[k].location;
    var c := cache[k := Entry(location, v)];
    if k == 0 {
      assert c[1..] == cache[1..];
    } else {
      assert c[1..] == cache[1..][k - 1 := Entry(location, v)];
      AsMapOverwrite(cache[1..], k - 1, v);
      assert cache[0].location != location;
      var m := AsMap(cache[1..]);
      assert m[location := v][cache[0].location := cache[0].value] == m[cache[0].location := cache[0].value][location := v];
    }
  }

  // ---- What updateUniform promises ----

  /** updateUniform keeps the entries the width of their type and their locations unique. */
  lemma UpdateKeepsInvariant(cache: seq<Entry>, program: int, location: int, n: nat, val: seq<Word>, blank: seq<Word>)
    requires WellSized(cache, |blank|) && UniqueLocations(cache) && n <= |blank| && n <= |val|
    ensures var r := UpdateSpec(cache, program, location, n, val, blank);
      WellSized(r.cache, |blank|) && UniqueLocations(r.cache)
  {
    var r := UpdateSpec(cache, program, location, n, val, blank);
    if program > 0 && location >= 0 {
      var k := IndexOf(cache, location);
      if k == |cache| {
        assert forall i | 0 <= i < |cache| :: r.cache[i] == cache[i];
        assert r.cache[|cache|].location == location;
      }
    }
  }

  /**
   * updateUniform's effect on the dictionary: without a program or with an
   * invalid location nothing changes; otherwise the location's first `n`
   * words become those of `val` (over the old value, or the default) and
   * every other location keeps its value.  It reports a change exactly when
   * the location was absent or those words differed.
   */
  lemma UpdateEffect(cache: seq<Entry>, program: int, location: int, n: nat, val: seq<Word>, blank: seq<Word>)
    requires WellSized(cache, |blank|) && n <= |blank| && n <= |val|
    ensures var r := UpdateSpec(cache, program, location, n, val, blank);
      && (program <= 0 || location < 0 ==> r == Outcome(cache, false))
      && (program > 0 && location >= 0 ==>
            && |Current(cache, location, blank)| == |blank|
            && AsMap(r.cache) == AsMap(cache)[location := Stored(val, n, Current(cache, location, blank))]
            && (r.changed <==> location !in AsMap(cache) || AsMap(cache)[location][..n] != val[..n]))
  {
    var r := UpdateSpec(cache, program, location, n, val, blank);
    if program > 0 && location >= 0 {
      var k := IndexOf(cache, location);
      AsMapLookup(cache, location);
      if k == |cache| {
        AsMapAppend(cache, Entry(location, Stored(val, n, blank)));
      } else {
        var was := cache[k].value;
        AsMapOverwrite(cache, k, Stored(val, n, was));
        if was[..n] == val[..n] {
          assert Stored(val, n, was) == was;
          assert AsMap(cache)[location := was] == AsMap(cache);
        }
      }
    }
  }

  /** A second identical call right after the first reports no change and changes nothing. */
  lemma UpdateRepeat(cache: seq<Entry>, program: int, location: int, n: nat, val: seq<Word>, blank: seq<Word>)
    requires WellSized(cache, |blank|) && UniqueLocations(cache) && n <= |blank| && n <= |val|
    ensures var r := UpdateSpec(cache, program, location, n, val, blank);
      WellSized(r.cache, |blank|) && UpdateSpec(r.cache, program, location, n, val, blank) == Outcome(r.cache, false)
  {
    var r := UpdateSpec(cache, program, location, n, val, blank);
    UpdateKeepsInvariant(cache, program, location, n, val, blank);
    if program > 0 && location >= 0 {
      UpdateEffect(cache, program, location, n, val, blank);
      UpdateEffect(r.cache, program, location, n, val, blank);
      AsMapLookup(r.cache, location);
    }
  }

  /** One of the per-type value caches (mValueVec4, mValueMat3, mValueMat4). */
  class UniformCache {
    /** The words of a default-constructed value of the cache's type. */
    const blank: seq<Word>
    var entries: seq<Entry>

    predicate Valid()
      reads this
    {
      WellSized(entries, |blank|) && UniqueLocations(entries)
    }

    constructor (blank: seq<Word>)
      ensures this.blank == blank && entries == [] && Valid()
    {
      this.blank := blank;
      entries := [];
    }

    /** updateUniform<T, n> on this cache. */
    method Update(program: int, location: int, n: nat, val: seq<Word>) returns (changed: bool)
      requires Valid() && n <= |blank| && n <= |val|
      modifies this
      ensures Valid()
      ensures Outcome(entries, changed) == UpdateSpec(old(entries), program, location, n, val, blank)
    {
      UpdateKeepsInvariant(entries, program, location, n, val, blank);
      changed := false;
      if program > 0 {
        if location >= 0 {
          var k := 0;
          while k < |entries| && entries[k].location != location
            invariant k <= |entries|
            invariant forall j | 0 <= j < k :: entries[j].location != location
          {
            k := k + 1;
          }
          if k == |entries| {
            entries := entries + [Entry(location, Stored(val, n, blank))];
            changed := true;
          } else if entries[k].value[..n] != val[..n] {
            entries := entries[k := Entry(location, Stored(val, n, entries[k].value))];
            changed := true;
          }
        }
      }
    }
  }

  /** getUniformLocation(U32 index): mUniform[index], or -1 past its end. */
  function LocationAt(uniforms: seq<int>, index: nat): (loc: int)
    ensures index < |uniforms| ==> loc == uniforms[index]
    ensures index >= |uniforms| ==> loc == -1
  {
    if index < |uniforms| then uniforms[index] else -1
  }

  /** As written, the array setters upload when the cache changed or more than one element is set. */
  function ArrayUploadAsWritten(changed: bool, count: nat): bool
  {
    changed || count > 1
  }

  /**
   * As written, an array setter given an index past mUniform and a count
   * above one uploads even though getUniformLocation reported -1, and so
   * reads mUniform[index] past the end.
   */
  lemma ArrayUploadPastEnd(uniforms: seq<int>, index: nat, program: int, cache: seq<Entry>, n: nat, val: seq<Word>, blank: seq<Word>)
    requires index >= |uniforms| && WellSized(cache, |blank|) && n <= |blank| && n <= |val|
    ensures LocationAt(uniforms, index) == -1
    ensures !UpdateSpec(cache, program, LocationAt(uniforms, index), n, val, blank).changed
    ensures ArrayUploadAsWritten(UpdateSpec(cache, program, LocationAt(uniforms, index), n, val, blank).changed, 2)
  {
  }

  /**
   * The array setters' upload decision as evidently intended: never for an
   * index past mUniform, so mUniform[index] is always read in bounds.
   */
  function ArrayUpload(uniforms: seq<int>, index: nat, changed: bool, count: nat): (up: bool)
    ensures up ==> index < |uniforms|
    ensures index < |uniforms| ==> (up <==> ArrayUploadAsWritten(changed, count))
  {
    index < |uniforms| && (changed || count > 1)
  }

  /** What a setter sends: the function family, and the caches' value types. */
  datatype Shape = Vector(n: nat) | Matrix3 | Matrix3x4 | Matrix4

  /** The number of words a setter compares and stores. */
  function Width(shape: Shape): nat
  {
    match shape
    case Vector(n) => n
    case Matrix3 => 9
    case Matrix3x4 => 12
    case Matrix4 => 16
  }

  predicate ValidShape(shape: Shape)
  {
    shape.Vector? ==> 1 <= shape.n <= 4
  }

  /** The uniform state of one LLGLSLShader. */
  class Shader {
    /** mProgramObject: zero until the program is linked. */
    var program: int
    /** mUniform: the location of each uniform by index. */
    var uniforms: seq<int>
    /** mUniformMap: the location of each uniform by name. */
    var uniformMap: map<string, int>
    const vec4: UniformCache
    const mat3: UniformCache
    const mat4: UniformCache

    predicate Valid()
      reads this, vec4, mat3, mat4
    {
      && vec4 != mat3 && vec4 != mat4 && mat3 != mat4
      && |vec4.blank| == 4 && |mat3.blank| == 9 && |mat4.blank| == 16
      && vec4.Valid() && mat3.Valid() && mat4.Valid()
    }

    /** A shader not yet linked, with empty caches; the blanks are the default LLVector4, LLMatrix3 and LLMatrix4. */
    constructor (blank4: seq<Word>, blank9: seq<Word>, blank16: seq<Word>)
      requires |blank4| == 4 && |blank9| == 9 && |blank16| == 16
      ensures Valid() && fresh(vec4) && fresh(mat3) && fresh(mat4)
      ensures program == 0 && uniforms == [] && uniformMap == map[]
      ensures vec4.entries == [] && mat3.entries == [] && mat4.entries == []
    {
      program := 0;
      uniforms := [];
      uniformMap := map[];
      vec4 := new UniformCache(blank4);
      mat3 := new UniformCache(blank9);
      mat4 := new UniformCache(blank16);
    }

    /** The cache a shape's setters use. */
    function CacheFor(shape: Shape): UniformCache
      reads this
    {
      match shape
      case Vector(_) => vec4
      case Matrix3 => mat3
      case Matrix4 => mat4
      case Matrix3x4 => mat4
    }

    /** getUniformLocation(name): the mapped location once the program exists, -1 otherwise. */
    function NamedLocation(name: string): (loc: int)
      reads this
      ensures loc != -1 ==> program > 0 && name in uniformMap && loc == uniformMap[name]
      ensures program > 0 && name in uniformMap ==> loc == uniformMap[name]
    {
      if program > 0 && name in uniformMap then uniformMap[name] else -1
    }

    /**
     * uniform1i/1f/2f/3f/4f(index, ...): upload exactly when the vector
     * cache reports a change.  `val` holds the words of the float arguments.
     */
    method Uniform(index: nat, val: seq<Word>) returns (uploaded: bool)
      requires Valid() && 1 <= |val| <= 4
      modifies vec4
      ensures Valid()
      ensures var r := UpdateSpec(old(vec4.entries), program, LocationAt(uniforms, index), |val|, val, vec4.blank);
        vec4.entries == r.cache && uploaded == r.changed
      ensures uploaded ==> index < |uniforms|
    {
      uploaded := vec4.Update(program, LocationAt(uniforms, index), |val|, val);
    }

    /**
     * uniform1iv..4fv and uniformMatrix3fv/3x4fv/4fv(index, count, ...):
     * the first element goes through the cache; upload to mUniform[index]
     * when it changed or more than one element is set.  The location is
     * not tested, so an index past mUniform with a count above one still
     * uploads, reading mUniform[index] past its end (`readsPastEnd`).
     */
    method UniformArray(index: nat, count: nat, shape: Shape, val: seq<Word>) returns (uploaded: bool, readsPastEnd: bool)
      requires Valid() && ValidShape(shape) && Width(shape) <= |val|
      modifies CacheFor(shape)
      ensures Valid()
      ensures var c := CacheFor(shape);
        var r := UpdateSpec(old(c.entries), program, LocationAt(uniforms, index), Width(shape), val, c.blank);
        c.entries == r.cache && uploaded == ArrayUploadAsWritten(r.changed, count)
      ensures readsPastEnd <==> uploaded && index >= |uniforms|
      ensures index >= |uniforms| ==> (readsPastEnd <==> count > 1)
    {
      var c := CacheFor(shape);
      var location := LocationAt(uniforms, index);
      var changed := c.Update(program, location, Width(shape), val);
      uploaded := ArrayUploadAsWritten(changed, count);
      readsPastEnd := uploaded && index >= |uniforms|;
    }

    /**
     * The setters by name (uniform1i/1f/2f/3f, uniform1fv..4fv and
     * uniformMatrix4fv): nothing for an unknown name; otherwise upload
     * exactly when the cache reports a change, whatever the count.
     */
    method UniformNamed(name: string, shape: Shape, val: seq<Word>) returns (uploaded: bool)
      requires Valid() && (shape.Vector? || shape.Matrix4?) && ValidShape(shape) && Width(shape) <= |val|
      modifies CacheFor(shape)
      ensures Valid()
      ensures var c := CacheFor(shape);
        NamedLocation(name) < 0 ==> c.entries == old(c.entries) && !uploaded
      ensures var c := CacheFor(shape);
        var r := UpdateSpec(old(c.entries), program, NamedLocation(name), Width(shape), val, c.blank);
        NamedLocation(name) >= 0 ==> c.entries == r.cache && uploaded == r.changed
    {
      var c := CacheFor(shape);
      var location := NamedLocation(name);
      if location < 0 {
        return false;
      }
      uploaded := c.Update(program, location, Width(shape), val);
    }
  }
}
