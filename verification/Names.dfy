/** Names of directory entries. */
module Names {

  /** A distinguished name is the sequence of its RDNs, the entry's own first. */
  type Dn = seq<string>
}
