/** BlacklistedTokensService: an in-memory set of revoked tokens that starts
    empty and has no removal operation. */
module Blacklist {
  import opened Jwt

  class BlacklistedTokensService {
    var blacklistedTokens: set<Token>

    constructor ()
      ensures blacklistedTokens == {}
      ensures forall t :: !IsTokenBlacklisted(t)
    {
      blacklistedTokens := {};
    }

    method AddToken(token: Token)
      modifies this
      ensures blacklistedTokens == old(blacklistedTokens) + {token}
      ensures IsTokenBlacklisted(token)
      ensures forall t :: t != token ==> IsTokenBlacklisted(t) == old(IsTokenBlacklisted(t))
    {
      blacklistedTokens := blacklistedTokens + {token};
    }

    function IsTokenBlacklisted(token: Token): (r: bool)
      reads this
      ensures r <==> token in blacklistedTokens
    {
      token in blacklistedTokens
    }
  }
}
