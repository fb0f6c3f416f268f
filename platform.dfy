/** The target platform as far as the allocator shim depends on it: which
    system it is (Apple, glibc, SPARC/Sun) and the widths of the C types it
    uses (`long`, `long long`, `size_t`). */
module Platform {

  datatype Platform = Platform(
    apple: bool,          // __APPLE__ is defined
    glibc: bool,          // __GLIBC__ is defined
    sparcOrSun: bool,     // __sun, __sparc or __sparc__ is defined
    longBytes: nat,       // sizeof(long)
    longLongBytes: nat,   // sizeof(long long)
    sizeTBytes: nat)      // sizeof(size_t)

  /** The data models the shim is built for: ILP32, LP64 and LLP64. */
  predicate ValidPlatform(p: Platform) {
    && (p.longBytes == 4 || p.longBytes == 8)
    && (p.sizeTBytes == 4 || p.sizeTBytes == 8)
    && p.longLongBytes == 8
  }

  /** size_t arithmetic is arithmetic modulo this number. */
  function SizeModulus(p: Platform): (m: nat)
    requires ValidPlatform(p)
    ensures m == 0x1_0000_0000 || m == 0x1_0000_0000_0000_0000
    ensures m % 8 == 0
  {
    if p.sizeTBytes == 4 then 0x1_0000_0000 else 0x1_0000_0000_0000_0000
  }
}
