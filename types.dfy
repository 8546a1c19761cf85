/** The `Network` enumeration: the deployment targets the scripts accept. */
module Types {

  datatype Network =
    | Hardhat
    | Localhost
    | Kovan
    | Mainnet
    | Ropsten
    | TenderlyMain
    | BscTestnet
    | BscMainnet

  /** The member's key in the enumeration. Every member is a string member
      whose value is spelled exactly like its key, so this is its value too. */
  function Key(n: Network): (s: string)
    ensures s != []
  {
    match n
    case Hardhat => "hardhat"
    case Localhost => "localhost"
    case Kovan => "kovan"
    case Mainnet => "mainnet"
    case Ropsten => "ropsten"
    case TenderlyMain => "tenderlyMain"
    case BscTestnet => "bsctestnet"
    case BscMainnet => "bscmainnet"
  }

  /** No two members share a key, so a key names at most one member. */
  lemma KeyInjective(n: Network, m: Network)
    ensures Key(n) == Key(m) ==> n == m
  {
  }
}
