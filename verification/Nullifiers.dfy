/** The nullifier registry: a set of 32-byte words that only grows. */
module Nullifiers {
  import opened Field
  import opened Wrappers

  datatype Error = AlreadySpent

  class Registry {
    var spent: set<Word>

    constructor ()
      ensures spent == {}
    {
      spent := {};
    }

    method IsSpent(nf: Word) returns (r: bool)
      ensures r <==> nf in spent
    {
      r := nf in spent;
    }

    /** Marks an unspent nullifier and nothing else; a spent one is refused unchanged. */
    method MarkSpent(nf: Word) returns (r: Result<(), Error>)
      modifies this
      ensures r.Ok? <==> nf !in old(spent)
      ensures spent == old(spent) + {nf}
    {
      if nf in spent {
        assert spent == spent + {nf};
        return Err(AlreadySpent);
      }
      spent := spent + {nf};
      return Ok(());
    }

    /** The host's rollback of an invocation that trapped. */
    method Restore(before: set<Word>)
      modifies this
      ensures spent == before
    {
      spent := before;
    }
  }
}
