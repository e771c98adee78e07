/**
 * A namespace of the ESP32 `Preferences` store (non-volatile key-value
 * storage): typed values under string keys. A getter returns the stored
 * value when the key holds one of its type, and the caller's default
 * otherwise.
 */
module Prefs {
  import opened Common

  datatype Value = Str(s: string) | UShort(u: u16) | UInt(n: u32)

  type Store = map<string, Value>

  /** `getString(key, def)`. */
  function GetString(st: Store, key: string, def: string): string
  {
    if key in st && st[key].Str? then st[key].s else def
  }

  /** `getUShort(key, def)`. */
  function GetUShort(st: Store, key: string, def: u16): u16
  {
    if key in st && st[key].UShort? then st[key].u else def
  }

  /** `getUInt(key, def)`. */
  function GetUInt(st: Store, key: string, def: u32): u32
  {
    if key in st && st[key].UInt? then st[key].n else def
  }
}
