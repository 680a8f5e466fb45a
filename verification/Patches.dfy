/**
 A piece of memory or disk that is overwritten in one stretch.
 */
module Patches {

  function Patch<T>(s: seq<T>, at: nat, b: seq<T>): (r: seq<T>)
    requires at + |b| <= |s|
    ensures |r| == |s|
  {
    s[..at] + b + s[at + |b|..]
  }
}
