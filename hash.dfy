// The hash engine: a context object bound to a hash class (Adler-32 or MD5)
// and driven by init / update / finalize, with the digest exposed from a
// 64-byte value buffer.

module Hashes {
  import opened Common
  import Maps
  import Adler32

  /** `MvtHashType`. */
  const HASH_TYPE_ADLER32: int := 1
  const HASH_TYPE_MD5: int := 2

  /** Size of the value buffer of every context. */
  const HASH_VALUE_MAX_LENGTH: nat := 64

  /** The `hash_types` name table. */
  const HashTypes: Maps.Map :=
    Maps.Map([Maps.Entry("adler32", HASH_TYPE_ADLER32), Maps.Entry("md5", HASH_TYPE_MD5)], 0)

  /** `mvt_hash_type_from_name`. */
  method TypeFromName(name: string) returns (t: int)
    ensures t == (if name == "adler32" then HASH_TYPE_ADLER32
                  else if name == "md5" then HASH_TYPE_MD5 else 0)
  {
    t := Maps.Lookup(HashTypes, name);
    assert HashTypes.entries[0].name == "adler32" && HashTypes.entries[1].name == "md5";
  }

  /** `mvt_hash_type_to_name`; `None` is NULL. */
  method TypeToName(t: int) returns (name: Option<string>)
    ensures name == (if t == HASH_TYPE_ADLER32 then Some("adler32")
                     else if t == HASH_TYPE_MD5 then Some("md5") else None)
  {
    name := Maps.LookupValue(HashTypes, t);
    assert HashTypes.entries[0].value == HASH_TYPE_ADLER32;
    assert HashTypes.entries[1].value == HASH_TYPE_MD5;
  }

  /** A 16-byte MD5 digest. */
  type Md5Digest = s: seq<Byte> | |s| == 16 witness seq(16, _ => 0)

  /** Which algorithm a class implements. */
  datatype Algorithm = Adler32Algorithm | Md5Algorithm

  /**
   * `MvtHashClass`: the object size, the digest length, and which of the
   * optional constructor/destructor and the three operations are present.
   */
  datatype HashClass = HashClass(
    algorithm: Algorithm,
    size: nat,
    valueLength: nat,
    hasInit: bool,
    hasFinalize: bool,
    hasOpInit: bool,
    hasOpFinalize: bool,
    hasOpUpdate: bool)

  // Object sizes on an LP64 host: `MvtHash` is a class pointer and the value
  // buffer; each class appends its own state.
  const SIZEOF_HASH: nat := 8 + HASH_VALUE_MAX_LENGTH

  /** `mvt_hash_class_adler32`: a 4-byte digest, no constructor or destructor. */
  const ADLER32_CLASS: HashClass :=
    HashClass(Adler32Algorithm, SIZEOF_HASH + 8, 4, false, false, true, true, true)

  /** `mvt_hash_class_md5`: a 16-byte digest, with a constructor and a destructor. */
  const MD5_CLASS: HashClass :=
    HashClass(Md5Algorithm, SIZEOF_HASH + 8, 16, true, true, true, true, true)

  /** The class `mvt_hash_new` selects for a type; NULL for any other type. */
  function ClassFor(t: int): Option<HashClass>
  {
    if t == HASH_TYPE_ADLER32 then Some(ADLER32_CLASS)
    else if t == HASH_TYPE_MD5 then Some(MD5_CLASS)
    else None
  }

  /** `check_class`: a class exists, its digest fits the buffer, and it has all three operations. */
  predicate CheckClass(k: Option<HashClass>)
  {
    k.Some? &&
    0 < k.value.valueLength < HASH_VALUE_MAX_LENGTH &&
    k.value.hasOpInit && k.value.hasOpFinalize && k.value.hasOpUpdate
  }

  /** Exactly the two known types give a usable class, with digests of 4 and 16 bytes. */
  lemma {:induction false} ClassesChecked(t: int)
    ensures CheckClass(ClassFor(t)) <==> t == HASH_TYPE_ADLER32 || t == HASH_TYPE_MD5
    ensures t == HASH_TYPE_ADLER32 ==> ClassFor(t).value.valueLength == 4
    ensures t == HASH_TYPE_MD5 ==> ClassFor(t).value.valueLength == 16
    ensures CheckClass(ClassFor(t)) ==> ClassFor(t).value.size >= SIZEOF_HASH
  {
    if t == HASH_TYPE_ADLER32 {
      assert ClassFor(t) == Some(ADLER32_CLASS);
    } else if t == HASH_TYPE_MD5 {
      assert ClassFor(t) == Some(MD5_CLASS);
    }
  }

  /** The digest a class produces for the bytes fed since the last init. */
  function DigestOf(k: HashClass, md5: seq<Byte> -> Md5Digest, fed: seq<Byte>): seq<Byte>
  {
    match k.algorithm
    case Adler32Algorithm => Adler32.Digest(Adler32.Checksum(fed))
    case Md5Algorithm => md5(fed)
  }

  /**
   * A hash context. `adler` is the state of an Adler-32 context and
   * `md5Input` stands for the state of the libavutil MD5 context (the bytes it
   * has absorbed); `md5` is libavutil's MD5 function. `fed` is the bytes
   * passed to update since the last init. `md5Ready` records that the MD5
   * context has been through `av_md5_init` and not yet through `av_md5_final`:
   * the class constructor only allocates it, and the final step pads it.
   */
  class Hash {
    const klass: HashClass
    const md5: seq<Byte> -> Md5Digest
    var value: seq<Byte>
    var adler: U32
    var md5Input: seq<Byte>
    var md5Context: bool
    ghost var fed: seq<Byte>
    ghost var md5Ready: bool

    ghost predicate Valid()
      reads this
    {
      |value| == HASH_VALUE_MAX_LENGTH && CheckClass(Some(klass)) &&
      (klass.algorithm == Adler32Algorithm ==>
        klass == ADLER32_CLASS && adler == Adler32.Checksum(fed)) &&
      (klass.algorithm == Md5Algorithm ==> klass == MD5_CLASS && md5Input == fed)
    }

    /**
     * A context update and finalize may be applied to: an Adler-32 context
     * from allocation on (calloc leaves the initial checksum), an MD5 context
     * only between init and finalize.
     */
    ghost predicate Ready()
      reads this
    {
      Valid() && (klass.algorithm == Md5Algorithm ==> md5Ready)
    }

    /** calloc of the context and binding of its class; `klass->init` runs in `New`. */
    constructor (k: HashClass, f: seq<Byte> -> Md5Digest)
      requires k == ADLER32_CLASS || k == MD5_CLASS
      ensures Valid() && klass == k && md5 == f && fed == [] && !md5Context
      ensures Ready() <==> k == ADLER32_CLASS
      ensures value == seq(HASH_VALUE_MAX_LENGTH, _ => 0)
    {
      klass := k;
      md5 := f;
      value := seq(HASH_VALUE_MAX_LENGTH, _ => 0);
      adler := 0;
      md5Input := [];
      md5Context := false;
      new;
      fed := [];
      md5Ready := false;
      Adler32.ChecksumEmpty(fed);
    }
  }

  /**
   * `mvt_hash_new`: NULL unless the type names a class that passes
   * `check_class`; otherwise a zeroed context whose class constructor has run.
   */
  method New(t: int, md5: seq<Byte> -> Md5Digest) returns (h: Hash?)
    ensures h == null <==> !CheckClass(ClassFor(t))
    ensures h != null ==>
      fresh(h) && h.Valid() && h.klass == ClassFor(t).value &&
      h.fed == [] && h.value == seq(HASH_VALUE_MAX_LENGTH, _ => 0) &&
      h.md5Context == h.klass.hasInit && (h.Ready() <==> t == HASH_TYPE_ADLER32)
  {
    var k := ClassFor(t);
    if !CheckClass(k) {
      return null;
    }
    ClassesChecked(t);
    if k.value.size < SIZEOF_HASH {
      return null;
    }
    h := new Hash(k.value, md5);
    if k.value.hasInit {
      // md5_init allocates the libavutil context.
      h.md5Context := true;
    }
  }

  /** `mvt_hash_free`: runs the class destructor; the memory itself is released. */
  method Free(h: Hash?)
    modifies h
    ensures h != null ==> h.md5Context == (old(h.md5Context) && !h.klass.hasFinalize)
    ensures h != null ==> h.value == old(h.value) && h.adler == old(h.adler) && h.fed == old(h.fed)
  {
    if h == null {
      return;
    }
    if h.klass.hasFinalize {
      h.md5Context := false;
    }
  }

  /**
   * `mvt_hash_freep` on a pointer to a context variable (`None` stands for a
   * NULL pointer): frees the context and yields the new value of the variable.
   */
  method FreeP(hp: Option<Hash?>) returns (r: Option<Hash?>)
    modifies if hp.Some? then {hp.value} else {}
    ensures r == if hp.Some? then Some(null) else None
  {
    if hp.None? {
      return None;
    }
    Free(hp.value);
    return Some(null);
  }

  /** `mvt_hash_init`: restarts the computation; a no-op on NULL. */
  method Init(h: Hash?)
    requires h != null ==> h.Valid()
    modifies h
    ensures h != null ==> h.Ready() && h.fed == [] && h.value == old(h.value)
  {
    if h == null {
      return;
    }
    match h.klass.algorithm {
      case Adler32Algorithm =>
        h.adler := Adler32.ADLER32_INIT;
      case Md5Algorithm =>
        h.md5Input := [];
    }
    h.fed := [];
    h.md5Ready := true;
    Adler32.ChecksumEmpty(h.fed);
  }

  /**
   * `mvt_hash_update` with the buffer `buf` (`None` is NULL) and length
   * `len`: the first `len` bytes are appended to the input, unless the context
   * or the buffer is NULL or `len` is 0.
   */
  method Update(h: Hash?, buf: Option<seq<Byte>>, len: U32)
    requires h != null ==> h.Ready()
    requires buf.Some? ==> len <= |buf.value|
    modifies h
    ensures h != null ==> h.Ready() && h.value == old(h.value)
    ensures h != null && buf.Some? && len >= 1 ==> h.fed == old(h.fed) + buf.value[..len]
    ensures h != null && (buf.None? || len < 1) ==>
      h.fed == old(h.fed) && h.adler == old(h.adler) && h.md5Input == old(h.md5Input)
  {
    if h == null {
      return;
    }
    if buf.None? || len < 1 {
      return;
    }
    var data := buf.value;
    match h.klass.algorithm {
      case Adler32Algorithm =>
        h.adler := Adler32.Update(h.adler, data, len);
        Adler32.ChecksumExtend(h.fed, data[..len]);
      case Md5Algorithm =>
        h.md5Input := h.md5Input + data[..len];
    }
    h.fed := h.fed + data[..len];
  }

  /**
   * `mvt_hash_finalize`: the digest of the bytes fed since init fills the head
   * of the value buffer. An MD5 context needs a fresh init afterwards, an
   * Adler-32 context keeps its checksum.
   */
  method Finalize(h: Hash?)
    requires h != null ==> h.Ready()
    modifies h
    ensures h != null ==> h.Valid() && h.fed == old(h.fed)
    ensures h != null ==> (h.Ready() <==> h.klass.algorithm == Adler32Algorithm)
    ensures h != null ==>
      |DigestOf(h.klass, h.md5, h.fed)| == h.klass.valueLength &&
      h.value == DigestOf(h.klass, h.md5, h.fed) + old(h.value)[h.klass.valueLength..]
  {
    if h == null {
      return;
    }
    match h.klass.algorithm {
      case Adler32Algorithm =>
        h.value := Adler32.Digest(h.adler) + h.value[4..];
      case Md5Algorithm =>
        h.value := h.md5(h.md5Input) + h.value[16..];
        h.md5Ready := false;
    }
  }

  /**
   * `mvt_hash_get_value`: the value buffer and the class's digest length, each
   * written only when its out-pointer is non-NULL (`want*`) and the context is
   * non-NULL; `None` is an out-parameter left unwritten.
   */
  method GetValue(h: Hash?, wantValue: bool, wantLength: bool)
      returns (value: Option<seq<Byte>>, len: Option<nat>)
    requires h != null ==> h.Valid()
    ensures value.Some? <==> h != null && wantValue
    ensures len.Some? <==> h != null && wantLength
    ensures value.Some? ==> value.value == h.value
    ensures len.Some? ==>
      len.value == h.klass.valueLength &&
      len.value == (if h.klass.algorithm == Adler32Algorithm then 4 else 16) &&
      len.value < HASH_VALUE_MAX_LENGTH
  {
    value, len := None, None;
    if h == null {
      return;
    }
    if wantValue {
      value := Some(h.value);
    }
    if wantLength {
      len := Some(h.klass.valueLength);
    }
  }
}
