/**
The field prime is prime.  Pocklington's criterion is applied three times: to the field prime `P`
with one prime factor `Q` of `P - 1`, to `Q` with one prime factor `S` of `Q - 1`, and to `S` with
five small ones of `S - 1`.  Each time some `b` is raised to the prime factor, two bits of the
exponent at a time, where `c` is the next power; and `b - 1` has an inverse.
 */
module FieldPrime {
  import opened Primes
  import opened Pocklington
  import opened Field

  const Q: nat := 0x1DB8260E5E3B460A46A0088FCCF6A3A5936D75D89A776D4C0DA4F338AAFB
  const S: nat := 0xC03A94B2D3E64419A05CD8CCBF987069

  lemma Prime1627()
    ensures Prime(1627)
  {
    SmallPrime(1627, 41);
  }

  lemma Prime2657()
    ensures Prime(2657)
  {
    SmallPrime(2657, 52);
  }

  lemma Prime4423()
    ensures Prime(4423)
  {
    SmallPrime(4423, 67);
  }

  lemma Prime41201()
    ensures Prime(41201)
  {
    SmallPrime(41201, 203);
  }

  lemma Prime96557()
    ensures Prime(96557)
  {
    SmallPrime(96557, 311);
  }

  lemma Order1627Powers(e: nat) returns (f: nat)
    requires Leaves(S, 0x68D563DA82577CDE747BE7CA1629A663, e, 1)
    ensures f == 4096 * e + 1627
    ensures Leaves(S, 0x68D563DA82577CDE747BE7CA1629A663, f, 1)
  {
    var n := 0xC03A94B2D3E64419A05CD8CCBF987069;
    var b := 0x68D563DA82577CDE747BE7CA1629A663;
    var b2 := 0x50D82BC5D4C661C20D72D3A6849B9DCD;
    var b3 := 0x17A47A98A56415CC3BBD4536AE22C012;
    FirstPowers(n, b, b2, b3);
    var x, c := 1, 0;
    f := e;
    c := 0x68D563DA82577CDE747BE7CA1629A663; f := Next(n, b, f, x, 1, b, c); x := c;
    c := 0x8FEEE56DB499DCC53066F76885980389; f := Next(n, b, f, x, 2, b2, c); x := c;
    c := 0x6A784A21E65EEEEC433EEC5BA22F098C; f := Next(n, b, f, x, 1, b, c); x := c;
    c := 0x63D652B4F9D301A1A062C2CD19CBDCEC; f := Next(n, b, f, x, 1, b, c); x := c;
    c := 0xA0381CC83E3055F6ABCA8E6DB56A4ED0; f := Next(n, b, f, x, 2, b2, c); x := c;
    c := 1; f := Next(n, b, f, x, 3, b3, c); x := c;
  }

  lemma Order1627()
    ensures Witnessed(S, 1627)
  {
    var b: nat := 0x68D563DA82577CDE747BE7CA1629A663;
    LeavesZero(S, b);
    var e := Order1627Powers(0);
    Prime1627();
    Witness(S, 1627, b, 0x24AA6DB90E2FCF54BE15EA1741CE6810);
  }

  lemma Order2657Powers(e: nat) returns (f: nat)
    requires Leaves(S, 0x6C4D134F0037F6CF17C9DBA7EB1B3E5C, e, 1)
    ensures f == 4096 * e + 2657
    ensures Leaves(S, 0x6C4D134F0037F6CF17C9DBA7EB1B3E5C, f, 1)
  {
    var n := 0xC03A94B2D3E64419A05CD8CCBF987069;
    var b := 0x6C4D134F0037F6CF17C9DBA7EB1B3E5C;
    var b2 := 0xB9190F9E6BD67F5AFB1D75CD6A4B6824;
    var b3 := 0x51664BA0FBB62A72E40EFDC51BFE5A6D;
    FirstPowers(n, b, b2, b3);
    var x, c := 1, 0;
    f := e;
    c := 0xB9190F9E6BD67F5AFB1D75CD6A4B6824; f := Next(n, b, f, x, 2, b2, c); x := c;
    c := 0x77E48C36D84B4503CE8F304702AAC79C; f := Next(n, b, f, x, 2, b2, c); x := c;
    c := 0xB4FCAFC40B3419DADB740775EF3D56E0; f := Next(n, b, f, x, 1, b, c); x := c;
    c := 0x6BA78614B2EBFB49C56B7EDCEE8A499F; f := Next(n, b, f, x, 2, b2, c); x := c;
    c := 0x25C8489D45C3FF11ED9BF4EFCEFADBEF; f := Next(n, b, f, x, 0, 1, c); x := c;
    c := 1; f := Next(n, b, f, x, 1, b, c); x := c;
  }

  lemma Order2657()
    ensures Witnessed(S, 2657)
  {
    var b: nat := 0x6C4D134F0037F6CF17C9DBA7EB1B3E5C;
    LeavesZero(S, b);
    var e := Order2657Powers(0);
    Prime2657();
    Witness(S, 2657, b, 0x5CF4F62BA99356F7FF34CB9A3696FCE3);
  }

  lemma Order4423Powers(e: nat) returns (f: nat)
    requires Leaves(S, 0x7058AC3CE56FCFC1049FD296E88DC501, e, 1)
    ensures f == 16384 * e + 4423
    ensures Leaves(S, 0x7058AC3CE56FCFC1049FD296E88DC501, f, 1)
  {
    var n := 0xC03A94B2D3E64419A05CD8CCBF987069;
    var b := 0x7058AC3CE56FCFC1049FD296E88DC501;
    var b2 := 0x5A8AF6181D17AF3AEA20A6365EDC4863;
    var b3 := 0x7F84192C131C68E97C700DAB5BD30E4C;
    FirstPowers(n, b, b2, b3);
    var x, c := 1, 0;
    f := e;
    c := 0x7058AC3CE56FCFC1049FD296E88DC501; f := Next(n, b, f, x, 1, b, c); x := c;
    c := 0xB6EC9E076EC9D1D1B4B939C682AE9553; f := Next(n, b, f, x, 0, 1, c); x := c;
    c := 0x582E096C8EA0A48C0FB912005A8B2FCC; f := Next(n, b, f, x, 1, b, c); x := c;
    c := 0x1E14B4E0915ED3179449194E155BB2DA; f := Next(n, b, f, x, 1, b, c); x := c;
    c := 0xB674A70F44A76FCE298208CC37515AA7; f := Next(n, b, f, x, 0, 1, c); x := c;
    c := 0xA296133120368549F9324C26B326B4C8; f := Next(n, b, f, x, 1, b, c); x := c;
    c := 1; f := Next(n, b, f, x, 3, b3, c); x := c;
  }

  lemma Order4423()
    ensures Witnessed(S, 4423)
  {
    var b: nat := 0x7058AC3CE56FCFC1049FD296E88DC501;
    LeavesZero(S, b);
    var e := Order4423Powers(0);
    Prime4423();
    Witness(S, 4423, b, 0x937F7783EF3F53F2B577BCEB8049D1C8);
  }

  lemma Order41201Powers(e: nat) returns (f: nat)
    requires Leaves(S, 0x2CD9AE0036E77246B43BE852EFDE75C8, e, 1)
    ensures f == 65536 * e + 41201
    ensures Leaves(S, 0x2CD9AE0036E77246B43BE852EFDE75C8, f, 1)
  {
    var n := 0xC03A94B2D3E64419A05CD8CCBF987069;
    var b := 0x2CD9AE0036E77246B43BE852EFDE75C8;
    var b2 := 0x49E94E9781FF56C7E0BF0EE010217932;
    var b3 := 0x7ADC49625B66F5CFEF1F23D9A38B811F;
    FirstPowers(n, b, b2, b3);
    var x, c := 1, 0;
    f := e;
    c := 0x49E94E9781FF56C7E0BF0EE010217932; f := Next(n, b, f, x, 2, b2, c); x := c;
    c := 0x7F90639BE1863F99BFA14CCBF9865375; f := Next(n, b, f, x, 2, b2, c); x := c;
    c := 0x30D86647CDE1C6F5D03456ECC329D698; f := Next(n, b, f, x, 0, 1, c); x := c;
    c := 0x65EACEA4861CA8999205C542A8DD72F7; f := Next(n, b, f, x, 0, 1, c); x := c;
    c := 0x1F3249D4C62D593615CCE6B1E86E9D0B; f := Next(n, b, f, x, 3, b3, c); x := c;
    c := 0xAD60CB76CB22C9509699D37F66528AF3; f := Next(n, b, f, x, 3, b3, c); x := c;
    c := 0x710A219C7AD7F590FD4C33551F482B8C; f := Next(n, b, f, x, 0, 1, c); x := c;
    c := 1; f := Next(n, b, f, x, 1, b, c); x := c;
  }

  lemma Order41201()
    ensures Witnessed(S, 41201)
  {
    var b: nat := 0x2CD9AE0036E77246B43BE852EFDE75C8;
    LeavesZero(S, b);
    var e := Order41201Powers(0);
    Prime41201();
    Witness(S, 41201, b, 0x6B4FBE7A24C3A1DB9285A5E7F2DAF547);
  }

  lemma Order96557Powers(e: nat) returns (f: nat)
    requires Leaves(S, 0x23AC68C78F30CF7C8DF9ABFDEC7D9F64, e, 1)
    ensures f == 262144 * e + 96557
    ensures Leaves(S, 0x23AC68C78F30CF7C8DF9ABFDEC7D9F64, f, 1)
  {
    var n := 0xC03A94B2D3E64419A05CD8CCBF987069;
    var b := 0x23AC68C78F30CF7C8DF9ABFDEC7D9F64;
    var b2 := 0xAA14DF4DF0B76191A5848CC2BB4F1AC8;
    var b3 := 0x84520B0F4CEAA3147E2E2833465B3044;
    FirstPowers(n, b, b2, b3);
    var x, c := 1, 0;
    f := e;
    c := 0x23AC68C78F30CF7C8DF9ABFDEC7D9F64; f := Next(n, b, f, x, 1, b, c); x := c;
    c := 0x542DBB49D29759A66268E85C53399EF7; f := Next(n, b, f, x, 1, b, c); x := c;
    c := 0x1966713F88A22E41BA1A1213162783CB; f := Next(n, b, f, x, 3, b3, c); x := c;
    c := 0x394AF79918617E998EC279403529E674; f := Next(n, b, f, x, 2, b2, c); x := c;
    c := 0xA55ECB54D272450626C24C84D1B663D9; f := Next(n, b, f, x, 1, b, c); x := c;
    c := 0x42EBC4F4685CA9C0AE63A9F9717DC4AE; f := Next(n, b, f, x, 0, 1, c); x := c;
    c := 0x7A301D840C3135C85A23581B6E92FE2C; f := Next(n, b, f, x, 2, b2, c); x := c;
    c := 0x9F9DF630DADF13872460AF7FBF9EAFE3; f := Next(n, b, f, x, 3, b3, c); x := c;
    c := 1; f := Next(n, b, f, x, 1, b, c); x := c;
  }

  lemma Order96557()
    ensures Witnessed(S, 96557)
  {
    var b: nat := 0x23AC68C78F30CF7C8DF9ABFDEC7D9F64;
    LeavesZero(S, b);
    var e := Order96557Powers(0);
    Prime96557();
    Witness(S, 96557, b, 0x275F06E520CF17B3013A76586486DA13);
  }

  lemma SIsPrime()
    ensures Prime(S)
  {
    Order1627();
    Order2657();
    Order4423();
    Order41201();
    Order96557();
    FiveFactors(S, 1627, 2657, 4423, 41201, 96557);
  }

  lemma OrderSPart1(e: nat) returns (f: nat)
    requires Leaves(Q, 0x7B08CCBE4749CEB24C5EDD1BCDF1F473D4AAC9B13960CE85A31117C6622, e, 1)
    ensures f == 0x100000000 * e + 0xC03A94B2
    ensures Leaves(Q, 0x7B08CCBE4749CEB24C5EDD1BCDF1F473D4AAC9B13960CE85A31117C6622, f,
                   0xAFED515E28FC7EB12B1E43CDC73B3315B5654EC8D726D5D7DB202B72BAF)
  {
    var n := 0x1DB8260E5E3B460A46A0088FCCF6A3A5936D75D89A776D4C0DA4F338AAFB;
    var b := 0x7B08CCBE4749CEB24C5EDD1BCDF1F473D4AAC9B13960CE85A31117C6622;
    var b2 := 0xBB05379901636309A34E526D1EF5BE8B5BE9D24D69E825AC6150AA680D5;
    var b3 := 0x1507822A81ADCB3F784CF47F5AB7482B6FF9BAB672F0D25CA10B2D4DAF5E;
    FirstPowers(n, b, b2, b3);
    var x, c := 1, 0;
    f := e;
    c := 0x1507822A81ADCB3F784CF47F5AB7482B6FF9BAB672F0D25CA10B2D4DAF5E; f := Next(n, b, f, x, 3, b3, c); x := c;
    c := 0x10DF691D2C1007E565A341DDED5C5B98C365E4241475181F34E41486D4DC; f := Next(n, b, f, x, 0, 1, c); x := c;
    c := 0x14CF455DFB9B8A6251BE9FE13DA13932327BCC4765C15B28BFA09F313EC5; f := Next(n, b, f, x, 0, 1, c); x := c;
    c := 0x16D2016F7FB66F916BE1FDC1978DF5835345D54CB48F2FF9E86E1214CD4D; f := Next(n, b, f, x, 0, 1, c); x := c;
    c := 0xDB5C8CCAF13D522982AA827E7592F917EC8CC2755E58382DE4EC6A8F067; f := Next(n, b, f, x, 0, 1, c); x := c;
    c := 0xF0A3B7FE46FECB5F045B2414BBD212646EC2FDB4524276D439C8253A1E6; f := Next(n, b, f, x, 3, b3, c); x := c;
    c := 0x148510C2F99ACD10AEE5E4D41044F4C353A38D26E829BFE8A650302B0048; f := Next(n, b, f, x, 2, b2, c); x := c;
    c := 0xD4008209C1CF8E677FD86E2783DCD3E5B68E6C4D98BDC64F6978655B830; f := Next(n, b, f, x, 2, b2, c); x := c;
    c := 0xE1AE136A2DE814E24CEF8E9DEF176B7D8D41F7C7B05D1956BF2BB25D1BC; f := Next(n, b, f, x, 2, b2, c); x := c;
    c := 0x1A27400194477664AAEB1F8E55C5F8D9AE8655A4049F4878BC67ED7187BA; f := Next(n, b, f, x, 1, b, c); x := c;
    c := 0x960ACCA505B0DD4163630B71579C913B4D5E90A7A0550AF5E7550BA3EBA; f := Next(n, b, f, x, 1, b, c); x := c;
    c := 0x9E9CEB197DE7EC94228028BABEA91424ECD507578AF6B7459F58B4EC015; f := Next(n, b, f, x, 0, 1, c); x := c;
    c := 0x32002A6E7EBF5968BD4039FF6FD1EECC9D4BDB1B88BF077A4EDAC4B2EC8; f := Next(n, b, f, x, 2, b2, c); x := c;
    c := 0x306257D2E59F321D1135B3AD5CFEE65F846AFB182A8AC1F7A175AB92239; f := Next(n, b, f, x, 3, b3, c); x := c;
    c := 0xAA4DDBA1DDFB73EAFF6D2267B5B727855DE31CE1DC7B74DCB497ECC8B4A; f := Next(n, b, f, x, 0, 1, c); x := c;
    c := 0xAFED515E28FC7EB12B1E43CDC73B3315B5654EC8D726D5D7DB202B72BAF; f := Next(n, b, f, x, 2, b2, c); x := c;
  }

  lemma OrderSPart2(e: nat) returns (f: nat)
    requires Leaves(Q, 0x7B08CCBE4749CEB24C5EDD1BCDF1F473D4AAC9B13960CE85A31117C6622, e,
                    0xAFED515E28FC7EB12B1E43CDC73B3315B5654EC8D726D5D7DB202B72BAF)
    ensures f == 0x100000000 * e + 0xD3E64419
    ensures Leaves(Q, 0x7B08CCBE4749CEB24C5EDD1BCDF1F473D4AAC9B13960CE85A31117C6622, f,
                   0x174B3EADAE28F225E73619BC54C560611E1A0EE7462C46324B4E659CBFFD)
  {
    var n := 0x1DB8260E5E3B460A46A0088FCCF6A3A5936D75D89A776D4C0DA4F338AAFB;
    var b := 0x7B08CCBE4749CEB24C5EDD1BCDF1F473D4AAC9B13960CE85A31117C6622;
    var b2 := 0xBB05379901636309A34E526D1EF5BE8B5BE9D24D69E825AC6150AA680D5;
    var b3 := 0x1507822A81ADCB3F784CF47F5AB7482B6FF9BAB672F0D25CA10B2D4DAF5E;
    FirstPowers(n, b, b2, b3);
    var x, c := 0xAFED515E28FC7EB12B1E43CDC73B3315B5654EC8D726D5D7DB202B72BAF, 0;
    f := e;
    c := 0x10B936E5D4BD46D353BFAFB4A1F3B1848004536909EE22B809F55A1295AD; f := Next(n, b, f, x, 3, b3, c); x := c;
    c := 0x949F304DFF1E14630C64B506183841D22968884B7C51454F9F074D5818E; f := Next(n, b, f, x, 1, b, c); x := c;
    c := 0x12F1A4ACFFCF1E94526F93F8441891BE63EED9BA97CA3930892A87F74692; f := Next(n, b, f, x, 0, 1, c); x := c;
    c := 0xD4EFAA9B955B45A33ECB9C857604E916140766B950D3043D620015A19B3; f := Next(n, b, f, x, 3, b3, c); x := c;
    c := 0x1192B33AF3BEA46E1CCA4991872BFC6E4B7A5467C217FD4429F79BAB672F; f := Next(n, b, f, x, 3, b3, c); x := c;
    c := 0xCC571BF2FA4A05AFC2A593B670E2EEB322CFB85D64C021E18C6BA69444F; f := Next(n, b, f, x, 2, b2, c); x := c;
    c := 0xC95D63675E43913AD66EF22D8B22A547AA49F0195126662EF89231CCA96; f := Next(n, b, f, x, 1, b, c); x := c;
    c := 0x1548E344DE538BE4289B46E4C4A4ABC6FD9F7059DC2E985ADDAA8C0489; f := Next(n, b, f, x, 2, b2, c); x := c;
    c := 0x9B402D6C0592B0A854F72B6D81D201F71A9ED15BF4DCFAB1402D340F41D; f := Next(n, b, f, x, 1, b, c); x := c;
    c := 0x4B5C7138DCEA5F34D9E65B1F303942E11DB83D6D2A7EE03355E10E2481F; f := Next(n, b, f, x, 0, 1, c); x := c;
    c := 0xA3F2282EC27FDC570408C1779D36223B30D1F5E63B96E62B83AC93B8753; f := Next(n, b, f, x, 1, b, c); x := c;
    c := 0x1F1E2735B9717E5FF9EF20916EF0213DDF902BC877B85A1110573E8EF17; f := Next(n, b, f, x, 0, 1, c); x := c;
    c := 0x810A1D0515B240CC70D2891A1FDAD361C4B51A68DE5D6252CFDF8E9DC61; f := Next(n, b, f, x, 0, 1, c); x := c;
    c := 0x3E0ADFE6B211E99D6CECB6457B030B6BB2926B42CD37A0445C01B89242C; f := Next(n, b, f, x, 1, b, c); x := c;
    c := 0x156C73CB642683BF6232D602D9353958A9F05D64492DF31DF8DBC5B6236F; f := Next(n, b, f, x, 2, b2, c); x := c;
    c := 0x174B3EADAE28F225E73619BC54C560611E1A0EE7462C46324B4E659CBFFD; f := Next(n, b, f, x, 1, b, c); x := c;
  }

  lemma OrderSPart3(e: nat) returns (f: nat)
    requires Leaves(Q, 0x7B08CCBE4749CEB24C5EDD1BCDF1F473D4AAC9B13960CE85A31117C6622, e,
                    0x174B3EADAE28F225E73619BC54C560611E1A0EE7462C46324B4E659CBFFD)
    ensures f == 0x100000000 * e + 0xA05CD8CC
    ensures Leaves(Q, 0x7B08CCBE4749CEB24C5EDD1BCDF1F473D4AAC9B13960CE85A31117C6622, f,
                   0x16EE10354A9C26A1589BE6362F3AED72B452AB28B2B81018DAB7C032DFAB)
  {
    var n := 0x1DB8260E5E3B460A46A0088FCCF6A3A5936D75D89A776D4C0DA4F338AAFB;
    var b := 0x7B08CCBE4749CEB24C5EDD1BCDF1F473D4AAC9B13960CE85A31117C6622;
    var b2 := 0xBB05379901636309A34E526D1EF5BE8B5BE9D24D69E825AC6150AA680D5;
    var b3 := 0x1507822A81ADCB3F784CF47F5AB7482B6FF9BAB672F0D25CA10B2D4DAF5E;
    FirstPowers(n, b, b2, b3);
    var x, c := 0x174B3EADAE28F225E73619BC54C560611E1A0EE7462C46324B4E659CBFFD, 0;
    f := e;
    c := 0x19C2E1362A06FE1CF067173743BF05D74E0BE12D4C2F92FD9A276E96F03D; f := Next(n, b, f, x, 2, b2, c); x := c;
    c := 0xFE4ECE2CEF766107A2EC60F4D5E7941827FA299FA8F01CFA5B6BB1E5E7; f := Next(n, b, f, x, 2, b2, c); x := c;
    c := 0x3B6C30422B0DF4F1BAB5B213458F01F069CC53FF8DD975178D653B4EBE7; f := Next(n, b, f, x, 0, 1, c); x := c;
    c := 0x137166E8F03A99E1E9835FFDE1E475D8DFB6C68BA5C11000F146219B6774; f := Next(n, b, f, x, 0, 1, c); x := c;
    c := 0x1747A1D609CB35853BE519C8A3858FFD3E3FFFFEC7E38D1460773AF1F589; f := Next(n, b, f, x, 1, b, c); x := c;
    c := 0x1314CABB33E7734A079EAF4399A2055A4503C3E5BA2F7FA138D6E39FD8F8; f := Next(n, b, f, x, 1, b, c); x := c;
    c := 0x1193764ECA9CC482E7990DBF5F0764136EC7FF294450293554A0E7558763; f := Next(n, b, f, x, 3, b3, c); x := c;
    c := 0xC0D0990983A9D7063B582C7234AD64A9AFAC8A84A0BF9656B408B8CCF9E; f := Next(n, b, f, x, 0, 1, c); x := c;
    c := 0x44496CBB67FCB82DA682701EDE22A7D65328BB9321BEB76D5E8E8E819D2; f := Next(n, b, f, x, 3, b3, c); x := c;
    c := 0xEEA3C78BD6B30AA8304079D99982C2F89D7609E025B39266BD2D47DE939; f := Next(n, b, f, x, 1, b, c); x := c;
    c := 0x12A2BC0BC8DA21CCB93739688BC34783BCA984E02C160EEE415BC47F2794; f := Next(n, b, f, x, 2, b2, c); x := c;
    c := 0x2E602CA74F75432E1B4503ADCD17E83B26C72C3E6D690A77857F45DE10A; f := Next(n, b, f, x, 0, 1, c); x := c;
    c := 0x1B7BF7A208E220037B0A4B31475B29CE478E1239B21380BFC203B540E47B; f := Next(n, b, f, x, 3, b3, c); x := c;
    c := 0xAEAC6E1CF6603B141FF8A89D4DA6388728C0A9A6145235D3606C0A8E60B; f := Next(n, b, f, x, 0, 1, c); x := c;
    c := 0xD62CEE5C9D532EF53B6EA9D80DE0F4E5FB1100228897D85E8376C774D9; f := Next(n, b, f, x, 3, b3, c); x := c;
    c := 0x16EE10354A9C26A1589BE6362F3AED72B452AB28B2B81018DAB7C032DFAB; f := Next(n, b, f, x, 0, 1, c); x := c;
  }

  lemma OrderSPart4(e: nat) returns (f: nat)
    requires Leaves(Q, 0x7B08CCBE4749CEB24C5EDD1BCDF1F473D4AAC9B13960CE85A31117C6622, e,
                    0x16EE10354A9C26A1589BE6362F3AED72B452AB28B2B81018DAB7C032DFAB)
    ensures f == 0x100000000 * e + 0xBF987069
    ensures Leaves(Q, 0x7B08CCBE4749CEB24C5EDD1BCDF1F473D4AAC9B13960CE85A31117C6622, f, 1)
  {
    var n := 0x1DB8260E5E3B460A46A0088FCCF6A3A5936D75D89A776D4C0DA4F338AAFB;
    var b := 0x7B08CCBE4749CEB24C5EDD1BCDF1F473D4AAC9B13960CE85A31117C6622;
    var b2 := 0xBB05379901636309A34E526D1EF5BE8B5BE9D24D69E825AC6150AA680D5;
    var b3 := 0x1507822A81ADCB3F784CF47F5AB7482B6FF9BAB672F0D25CA10B2D4DAF5E;
    FirstPowers(n, b, b2, b3);
    var x, c := 0x16EE10354A9C26A1589BE6362F3AED72B452AB28B2B81018DAB7C032DFAB, 0;
    f := e;
    c := 0x1C8A7CE61E90925396510F3A004A4F7B7FFBE48829C8B823360C1D7D33A6; f := Next(n, b, f, x, 2, b2, c); x := c;
    c := 0x11E8D65169704656218BEDC5C4FEE82B9B3382167FFBC9DEF22D0D3F9ED6; f := Next(n, b, f, x, 3, b3, c); x := c;
    c := 0x5E3963BF53E7DACAEE78AC6F5865AE6DA2E9ACE45B26651AE4E76EA3A75; f := Next(n, b, f, x, 3, b3, c); x := c;
    c := 0x18E37661188B7046D7B84AEA62C3A0471C6A58D62918436C3E350FD4F9EC; f := Next(n, b, f, x, 3, b3, c); x := c;
    c := 0x460DE613654D8540C47CBAA225D4337211D69D53A59C6DDBFFFFA904196; f := Next(n, b, f, x, 2, b2, c); x := c;
    c := 0x23EDF362CD298B54A3A345E2875C2CF046DA2027EF2953A70F8CB5858EA; f := Next(n, b, f, x, 1, b, c); x := c;
    c := 0xBD10499ACA5BD8B05291EB01CBD5D58A66A29E6F5BC2482996CEE0F7AFD; f := Next(n, b, f, x, 2, b2, c); x := c;
    c := 0x191B8EA88E33B03522E3F645BF396FBA7E2AC9AE2C9026298BEDC9F1B464; f := Next(n, b, f, x, 0, 1, c); x := c;
    c := 0x1C2E6C13DC24CE02B301E1C5B597E626A44814C94B166463071C07EAC596; f := Next(n, b, f, x, 1, b, c); x := c;
    c := 0x14600D0CA43AECF3DCBE2E5998496C7A95763F0B3CAEA5AEFF32C0ECFCBE; f := Next(n, b, f, x, 3, b3, c); x := c;
    c := 0x1A3A8B74C4241E7221DB84A3FFEB5A407323987E905F706DC28C9C28117F; f := Next(n, b, f, x, 0, 1, c); x := c;
    c := 0x2210CC68B964BA3E45CC889E3D0A0567B4CB86F93ABF3D6CEF69FF095F4; f := Next(n, b, f, x, 0, 1, c); x := c;
    c := 0x1BB3A4D20EA75FB5AA39DD0D06D16A5E47BED7A986D635A729DA651E8B17; f := Next(n, b, f, x, 1, b, c); x := c;
    c := 0xE3243B57025073C59F28780D20CEE1BEC8F367EAA6F8A6FF1DF42ADDCBE; f := Next(n, b, f, x, 2, b2, c); x := c;
    c := 0x17B865DAA7D6434DEFB0C1A2CFC2967921CF3D6909859EC69566D44B4110; f := Next(n, b, f, x, 2, b2, c); x := c;
    c := 1; f := Next(n, b, f, x, 1, b, c); x := c;
  }

  lemma OrderS()
    ensures Witnessed(Q, S)
  {
    var b: nat := 0x7B08CCBE4749CEB24C5EDD1BCDF1F473D4AAC9B13960CE85A31117C6622;
    LeavesZero(Q, b);
    var e := OrderSPart1(0);
    e := OrderSPart2(e);
    e := OrderSPart3(e);
    e := OrderSPart4(e);
    SIsPrime();
    Witness(Q, S, b, 0xBCE1BAE6645F252963752A74333138F457AAF3FBC9C842FBCD0B8D48AEB);
  }

  lemma QIsPrime()
    ensures Prime(Q)
  {
    OrderS();
    OneFactor(Q, S);
  }

  lemma OrderQPart1(e: nat) returns (f: nat)
    requires Leaves(P, 987408, e, 1)
    ensures f == 16384 * e + 7608
    ensures Leaves(P, 987408, f, 0x72F1A94663476DF01C6DD6D7ED51EF2B519B571B35ECA2FC22F12B50B6F52D06)
  {
    var n := 0xFFFFFFFFFFFFFFFFFFFFFFFFFFFFFFFFFFFFFFFFFFFFFFFFFFFFFFFEFFFFFC2F;
    var b := 987408;
    var b2 := 0xE301032100;
    var b3 := 0xD5C307034631000;
    FirstPowers(n, b, b2, b3);
    var x, c := 1, 0;
    f := e;
    c := 987408; f := Next(n, b, f, x, 1, b, c); x := c;
    c := 0xA81494D9712F297B8662B9927C710000000; f := Next(n, b, f, x, 3, b3, c); x := c;
    c := 0x935FAB546FE4D1A63B2459E3E093E77C8D2DC9E7C6E6F3FC618C5BA4C95350E0; f := Next(n, b, f, x, 1, b, c); x := c;
    c := 0xFA59128FCA66A59EAE0944983390D4AD8E326E6ED18102F59972D5E828DC2582; f := Next(n, b, f, x, 2, b2, c); x := c;
    c := 0x66E00999C3343364C8EFA345C7137C11C6A8467568C669E2B237887864F42712; f := Next(n, b, f, x, 3, b3, c); x := c;
    c := 0x5F1BF0DD9D29956A762E0E1E690195DEBBFDD4C9880EA69A311F846CCDE4B587; f := Next(n, b, f, x, 2, b2, c); x := c;
    c := 0x72F1A94663476DF01C6DD6D7ED51EF2B519B571B35ECA2FC22F12B50B6F52D06; f := Next(n, b, f, x, 0, 1, c); x := c;
  }

  lemma OrderQPart2(e: nat) returns (f: nat)
    requires Leaves(P, 987408, e, 0x72F1A94663476DF01C6DD6D7ED51EF2B519B571B35ECA2FC22F12B50B6F52D06)
    ensures f == 0x100000000 * e + 0x260E5E3B
    ensures Leaves(P, 987408, f, 0xB796109469AFA28F3A6CAD790822A205AEA9355E618E0CA70D81CDA5A73083A0)
  {
    var n := 0xFFFFFFFFFFFFFFFFFFFFFFFFFFFFFFFFFFFFFFFFFFFFFFFFFFFFFFFEFFFFFC2F;
    var b := 987408;
    var b2 := 0xE301032100;
    var b3 := 0xD5C307034631000;
    FirstPowers(n, b, b2, b3);
    var x, c := 0x72F1A94663476DF01C6DD6D7ED51EF2B519B571B35ECA2FC22F12B50B6F52D06, 0;
    f := e;
    c := 0x8389E28F2A3BBD36B7A912A950E8F891ED180456859637AF386ED7D79C4FE928; f := Next(n, b, f, x, 0, 1, c); x := c;
    c := 0x35A1FD5B53D799E2346612C6FCD60ED61280A4904545ADDB069AE5B0A61FBCDA; f := Next(n, b, f, x, 2, b2, c); x := c;
    c := 0x722D761B748936CAA0A95DE1605AD3C7B0BBDA68BD7D1905D8FA7A42344EC647; f := Next(n, b, f, x, 1, b, c); x := c;
    c := 0x726EF8ACF15E85B099FF578B26008F04027BDD9DF43059F8445D76D41AD3EC93; f := Next(n, b, f, x, 2, b2, c); x := c;
    c := 0xCF962F22418467AAEA30BE84B713ADED2573D7B54CDEF58F537015059F6FDC32; f := Next(n, b, f, x, 0, 1, c); x := c;
    c := 0x3130AC50AA3A8F18A3B8DD9477B720B481CE97B60A7D914AEB101ECCFB566DCE; f := Next(n, b, f, x, 0, 1, c); x := c;
    c := 0x3F3C2DF91663A43B87A1A7CB3A6E8D5F29F2E04FC30EA6FEF385FB966E9BD40B; f := Next(n, b, f, x, 3, b3, c); x := c;
    c := 0x6AAF8664B262AFAD1E11445C3ADD8457853B289EADB390DD7051C88261666AD0; f := Next(n, b, f, x, 2, b2, c); x := c;
    c := 0x566C7D1C4D04289F47C05EC1B1C4621A7673AAB21BFCE7693E162CAC717D426C; f := Next(n, b, f, x, 1, b, c); x := c;
    c := 0x6D1DD4F807541821A0360BBB8E9C68F4C656297B9E5127B1B12D5B78F58118C; f := Next(n, b, f, x, 1, b, c); x := c;
    c := 0xB47CBD1ADA317763AC43776463B4CEFDD6D1EE681C16773422268DC61EE8D8EE; f := Next(n, b, f, x, 3, b3, c); x := c;
    c := 0xA537B47BFE896F9AFFF4978F4BA54E50C307AB655BCF72504F5A5A8DFCFBC4E0; f := Next(n, b, f, x, 2, b2, c); x := c;
    c := 0x4E658B1161AC961DD0CA9F5EBB6354020975330AF78303E2DE595EF802C2E87D; f := Next(n, b, f, x, 0, 1, c); x := c;
    c := 0x45711FAD65AA395ADEF9E3C8BE4BBA7BA77E3B17E4943A8AF075EB6F725FA02D; f := Next(n, b, f, x, 3, b3, c); x := c;
    c := 0xE09E399203D7187EA98EA7059D0D20F078F0617F03391979692F9343A1E93586; f := Next(n, b, f, x, 2, b2, c); x := c;
    c := 0xB796109469AFA28F3A6CAD790822A205AEA9355E618E0CA70D81CDA5A73083A0; f := Next(n, b, f, x, 3, b3, c); x := c;
  }

  lemma OrderQPart3(e: nat) returns (f: nat)
    requires Leaves(P, 987408, e, 0xB796109469AFA28F3A6CAD790822A205AEA9355E618E0CA70D81CDA5A73083A0)
    ensures f == 0x100000000 * e + 0x460A46A0
    ensures Leaves(P, 987408, f, 0x80E38F802901C2B1EE3BE03CAABB7AE4E487ABAB9FB8084104781BE7008E7BA7)
  {
    var n := 0xFFFFFFFFFFFFFFFFFFFFFFFFFFFFFFFFFFFFFFFFFFFFFFFFFFFFFFFEFFFFFC2F;
    var b := 987408;
    var b2 := 0xE301032100;
    var b3 := 0xD5C307034631000;
    FirstPowers(n, b, b2, b3);
    var x, c := 0xB796109469AFA28F3A6CAD790822A205AEA9355E618E0CA70D81CDA5A73083A0, 0;
    f := e;
    c := 0x92EB11A80AA3319DE7425DAFC7ABFFA5C7FD8CB23365B9B924B515A0D19D0BA7; f := Next(n, b, f, x, 1, b, c); x := c;
    c := 0x76956CB7BD9AD8137C96BBF527794DCCE21B3AED96B595ADE00AB31FE39E93AF; f := Next(n, b, f, x, 0, 1, c); x := c;
    c := 0x49685CB02994E33D06C1F921903EF0989D04FB7AA95DD58D3F418331DFAEA9F0; f := Next(n, b, f, x, 1, b, c); x := c;
    c := 0xD76B60F0FE480FFC8C51D8B5203905849C438FD4BAC48441639B58C12F02A322; f := Next(n, b, f, x, 2, b2, c); x := c;
    c := 0x19DD3449615AE2A417E1530127E5AD0262B7EC997C91C943E35FF015741DD571; f := Next(n, b, f, x, 0, 1, c); x := c;
    c := 0x2EAB51D3E2E3DFC2495E5D9368F1B38229B01956BC101DBB3A4A8A2B4B4A49B1; f := Next(n, b, f, x, 0, 1, c); x := c;
    c := 0xCEC1E893D7655FFD0F95C516A2A818B4C9E197B2F569BBFD0E5A4A26522959CB; f := Next(n, b, f, x, 2, b2, c); x := c;
    c := 0xD1C9752DF42F8D7885038434A0F8F7012F4FCAB1EF23CC80D6EB067F2819CC6B; f := Next(n, b, f, x, 2, b2, c); x := c;
    c := 0x47581B6B6F0D47A677C0943C6D20C5EECD4AC786F5B685B1539E1149B7F09253; f := Next(n, b, f, x, 1, b, c); x := c;
    c := 0xEEE709FE26153C69BD326BD2A10B6E4A698B85570657D430F1144BD26AD5BEF2; f := Next(n, b, f, x, 0, 1, c); x := c;
    c := 0xE5075DD8651CF520548E68A2ADDE0C64B273D4ABDB9F37B95132FD1C9CE7EB2; f := Next(n, b, f, x, 1, b, c); x := c;
    c := 0x63E99F19BC101557E4C9E5A787EB3884203248E52280CF58ACE70A17310E9594; f := Next(n, b, f, x, 2, b2, c); x := c;
    c := 0x69D2A6C416714C29C9D1CA65363FBC8B829785B2C5EC74C26CAE0867726CAD15; f := Next(n, b, f, x, 2, b2, c); x := c;
    c := 0xDFDFDBF261CB41698E13BCA25EFE25A28CB6B885FFEAC87EB7DDAE7EA831EB2B; f := Next(n, b, f, x, 2, b2, c); x := c;
    c := 0x147866BF0D2D22D8D7CBF64C646FDA5B36242D9527407BB51EDB99D26A1AA8D0; f := Next(n, b, f, x, 0, 1, c); x := c;
    c := 0x80E38F802901C2B1EE3BE03CAABB7AE4E487ABAB9FB8084104781BE7008E7BA7; f := Next(n, b, f, x, 0, 1, c); x := c;
  }

  lemma OrderQPart4(e: nat) returns (f: nat)
    requires Leaves(P, 987408, e, 0x80E38F802901C2B1EE3BE03CAABB7AE4E487ABAB9FB8084104781BE7008E7BA7)
    ensures f == 0x100000000 * e + 0x88FCCF6
    ensures Leaves(P, 987408, f, 0x615F7691778A21F5115697AE448D58E7A9775311B6E90D818FE7A868F6407CE8)
  {
    var n := 0xFFFFFFFFFFFFFFFFFFFFFFFFFFFFFFFFFFFFFFFFFFFFFFFFFFFFFFFEFFFFFC2F;
    var b := 987408;
    var b2 := 0xE301032100;
    var b3 := 0xD5C307034631000;
    FirstPowers(n, b, b2, b3);
    var x, c := 0x80E38F802901C2B1EE3BE03CAABB7AE4E487ABAB9FB8084104781BE7008E7BA7, 0;
    f := e;
    c := 0x6D6AC9C129CB00EA955C480A28AC183C4CDCBDBDB50F4D07BF9774350F0C02E; f := Next(n, b, f, x, 0, 1, c); x := c;
    c := 0x1C4CD744C9B39159B0EC2B39AE755073BBA99E86409A8A158CA1E1989491D2BF; f := Next(n, b, f, x, 0, 1, c); x := c;
    c := 0x410E6A01DC51D66A0F346240F1E86FA6044673F9A14787B4ECCD72C13DCAD44A; f := Next(n, b, f, x, 2, b2, c); x := c;
    c := 0x32AB07048E08FB10AB8F2BBF9730D948EC62E72C898D247475B9754CFC35604A; f := Next(n, b, f, x, 0, 1, c); x := c;
    c := 0xDD9303E2AA32B1C8F92E0ED97AB09747E9C8C4A7661737418903E40B5C04BB46; f := Next(n, b, f, x, 2, b2, c); x := c;
    c := 0xC9CDC034ECE4DDE29D592C1AECF99155846444A6555E457ABB8C8E1D38F5C862; f := Next(n, b, f, x, 0, 1, c); x := c;
    c := 0x5C62E53DDF9DF027B3B5A976AF33FF30FBB28B089157D6FAB299F83DE58AB869; f := Next(n, b, f, x, 3, b3, c); x := c;
    c := 0x75EBCFC487A75183E8DA738F72E2DE4686F41ABD84D26CDCAC2AA005AA251F52; f := Next(n, b, f, x, 3, b3, c); x := c;
    c := 0xC03404B3E8AFCE7DC94421740B1F9AA056457FB6EB4005C7B0E910F85ED85155; f := Next(n, b, f, x, 3, b3, c); x := c;
    c := 0x673FD9D21F9B8A5AC17FFA7FCA5A68D8A3270957E2BAE2151DA40A145AD8BCAD; f := Next(n, b, f, x, 0, 1, c); x := c;
    c := 0xA144DD17AE981170EB9320504AE892429DDA9FC6A3D280E3962EF45344888553; f := Next(n, b, f, x, 3, b3, c); x := c;
    c := 0xFD68FEF5045B4EEA0A2C8A1695B583F7062A82909B97C8D5C0D97212D9478949; f := Next(n, b, f, x, 0, 1, c); x := c;
    c := 0x9A2A14FE55C64537815CF59603AA5386BDF30CDEF283EF94B2078DF736063574; f := Next(n, b, f, x, 3, b3, c); x := c;
    c := 0x6ABE3527BBC94FC6A879EFFC61E2B0BB54545A79A353F6B257E34C70BCACD6CD; f := Next(n, b, f, x, 3, b3, c); x := c;
    c := 0x8B4066C2FCADBF5FC106B844093F4082082C2AE2B05BC68D27B85130362655B8; f := Next(n, b, f, x, 1, b, c); x := c;
    c := 0x615F7691778A21F5115697AE448D58E7A9775311B6E90D818FE7A868F6407CE8; f := Next(n, b, f, x, 2, b2, c); x := c;
  }

  lemma OrderQPart5(e: nat) returns (f: nat)
    requires Leaves(P, 987408, e, 0x615F7691778A21F5115697AE448D58E7A9775311B6E90D818FE7A868F6407CE8)
    ensures f == 0x100000000 * e + 0xA3A5936D
    ensures Leaves(P, 987408, f, 0x3995EE6A70E97CA1ED73851BBD06D84D4B82C38466926D6556FC65CD4844B77C)
  {
    var n := 0xFFFFFFFFFFFFFFFFFFFFFFFFFFFFFFFFFFFFFFFFFFFFFFFFFFFFFFFEFFFFFC2F;
    var b := 987408;
    var b2 := 0xE301032100;
    var b3 := 0xD5C307034631000;
    FirstPowers(n, b, b2, b3);
    var x, c := 0x615F7691778A21F5115697AE448D58E7A9775311B6E90D818FE7A868F6407CE8, 0;
    f := e;
    c := 0x7A0DBDE1B967A2EA24B864E5F11E7EDD01CF01C20F9606A9CF54787B8985AD90; f := Next(n, b, f, x, 2, b2, c); x := c;
    c := 0xBB5DF8587AEFD8C5C5001740CB1FC8BA8101E193A28846C44869E8EE632E6904; f := Next(n, b, f, x, 2, b2, c); x := c;
    c := 0x84BAB997AA6494C1F2CAA52012D199876A975F0A81BABA6EF3E453823CFF811; f := Next(n, b, f, x, 0, 1, c); x := c;
    c := 0xDEBB83C6B6BA9F1135C03719101B16E755BA119AC61ADBA81BF30F1D551EE49F; f := Next(n, b, f, x, 3, b3, c); x := c;
    c := 0x123AA7CDE877F13073421373D893866BF6324C9D3FC2FF765346D54CDF0B0446; f := Next(n, b, f, x, 2, b2, c); x := c;
    c := 0xED4AE44E0A0B05664007083A95CB875D73C883965A131D942F06AE145403D5D2; f := Next(n, b, f, x, 2, b2, c); x := c;
    c := 0xD85BA7E393198DDEAC038674A97582BD381FD347CC74E20535D401FB90075ECA; f := Next(n, b, f, x, 1, b, c); x := c;
    c := 0x3B19EC0CBAFEFD2E620DACD5166839CBEAF05327E2F039C89154815C7B89E4DA; f := Next(n, b, f, x, 1, b, c); x := c;
    c := 0x46191DA02C0C6A492E8EB0B85D372C46473BD65F7F23D2A630E34ED0C92FA8CA; f := Next(n, b, f, x, 2, b2, c); x := c;
    c := 0x12F00030BFE54AFACCD657EB95214AC99E29453B3D4D8ACB813FD8685E364C2; f := Next(n, b, f, x, 1, b, c); x := c;
    c := 0xA22DEC3208712AACBB40513B274E17C3D0C1536F87EB4B1049F69D3D3B55C3D8; f := Next(n, b, f, x, 0, 1, c); x := c;
    c := 0x9F9544FA124D7A490B9F97E47E794C3122C0673BB491A623CE99029C94707C4B; f := Next(n, b, f, x, 3, b3, c); x := c;
    c := 0xFF2908131D2E7998AD43D45B90269C6BC6EF7E929C2D48B75F7D3E5DFE607D09; f := Next(n, b, f, x, 1, b, c); x := c;
    c := 0xFC0ECD1D93C3122F036A22849771C7420883F10CF07BA01815D7B27FE8290887; f := Next(n, b, f, x, 2, b2, c); x := c;
    c := 0x5A56FC0692BED76F4D0B42E1E1D650BDF2C4B9DD0FB662AFE193BA9E8A59BA8A; f := Next(n, b, f, x, 3, b3, c); x := c;
    c := 0x3995EE6A70E97CA1ED73851BBD06D84D4B82C38466926D6556FC65CD4844B77C; f := Next(n, b, f, x, 1, b, c); x := c;
  }

  lemma OrderQPart6(e: nat) returns (f: nat)
    requires Leaves(P, 987408, e, 0x3995EE6A70E97CA1ED73851BBD06D84D4B82C38466926D6556FC65CD4844B77C)
    ensures f == 0x100000000 * e + 0x75D89A77
    ensures Leaves(P, 987408, f, 0x7839DA45F9F92DB722784655225192F552C44BBA55B167011A45EE8572405FEC)
  {
    var n := 0xFFFFFFFFFFFFFFFFFFFFFFFFFFFFFFFFFFFFFFFFFFFFFFFFFFFFFFFEFFFFFC2F;
    var b := 987408;
    var b2 := 0xE301032100;
    var b3 := 0xD5C307034631000;
    FirstPowers(n, b, b2, b3);
    var x, c := 0x3995EE6A70E97CA1ED73851BBD06D84D4B82C38466926D6556FC65CD4844B77C, 0;
    f := e;
    c := 0xAA6F517728CC39CB34CB071324EB11E2E45C974A0F772EA8CDE7440A0C046B1B; f := Next(n, b, f, x, 1, b, c); x := c;
    c := 0x2DF2B5662E26E9B03CE016AE5A5252883099926AA176935E23357028E5982990; f := Next(n, b, f, x, 3, b3, c); x := c;
    c := 0xA73D7177205DC52C552C6C62A5924CEF3132BDD36D9BF68D89EEB268DA44AA3A; f := Next(n, b, f, x, 1, b, c); x := c;
    c := 0x9A8B3F52FE4CF026B672A92560B1314C32B1C1D6FC695C1A3249DC90B90FACBD; f := Next(n, b, f, x, 1, b, c); x := c;
    c := 0xA931EDFE3B27F3C5978CE453E6CD606CF22B9D4B1CF2A56148C90BAB7B9A6FF4; f := Next(n, b, f, x, 3, b3, c); x := c;
    c := 0xB8580172F48DD244736D85AAF18DDD25669245A41CD21DA0D8B4F3D48378B438; f := Next(n, b, f, x, 1, b, c); x := c;
    c := 0x76F72940A2EB0C89549B652BC61C80C5A350FA0979C04C56F2FB3A512C304B3B; f := Next(n, b, f, x, 2, b2, c); x := c;
    c := 0x360285BE9521984FE5340D5D527F6AB3CB809D79623E7C5934399674CA3E29D6; f := Next(n, b, f, x, 0, 1, c); x := c;
    c := 0x1D8AA4F18A69EE35F737AD76E6144140279CCCBB54A5E1F54B4788F4244CBDA; f := Next(n, b, f, x, 2, b2, c); x := c;
    c := 0x9D7A4AC005E7D872862DC69E5CFAB2D8E3B485E8E27B65DFBD021CD546D3FACB; f := Next(n, b, f, x, 1, b, c); x := c;
    c := 0x1EAE8D9CCAC79C74127FA0F7301BCEC58D8BD04B4D5855598DDFA348159C0B9D; f := Next(n, b, f, x, 2, b2, c); x := c;
    c := 0x29741E43688CA067988F19C47AA3B19B2999264BBE98EC04AF71D3475DE32841; f := Next(n, b, f, x, 2, b2, c); x := c;
    c := 0xCAF4A297279BCB42D351596E8A8DC3D77F7E00A311F9600D43BBD7FAE2BFD360; f := Next(n, b, f, x, 1, b, c); x := c;
    c := 0x1445A3FC43FB6A14F66CA1812F5BCBBA5DE8DEAD51AD422FD204EB1D5A96289A; f := Next(n, b, f, x, 3, b3, c); x := c;
    c := 0x493DA395954F4FB7A4DA990D20EF6D615CCF1C15DC5B4551283DF798C12370C7; f := Next(n, b, f, x, 1, b, c); x := c;
    c := 0x7839DA45F9F92DB722784655225192F552C44BBA55B167011A45EE8572405FEC; f := Next(n, b, f, x, 3, b3, c); x := c;
  }

  lemma OrderQPart7(e: nat) returns (f: nat)
    requires Leaves(P, 987408, e, 0x7839DA45F9F92DB722784655225192F552C44BBA55B167011A45EE8572405FEC)
    ensures f == 0x100000000 * e + 0x6D4C0DA4
    ensures Leaves(P, 987408, f, 0x9A2FE06C38FBDE1344F57D8EE4D0F3D173CFA7775CDF8FF3C705ABC1BCBDCD7C)
  {
    var n := 0xFFFFFFFFFFFFFFFFFFFFFFFFFFFFFFFFFFFFFFFFFFFFFFFFFFFFFFFEFFFFFC2F;
    var b := 987408;
    var b2 := 0xE301032100;
    var b3 := 0xD5C307034631000;
    FirstPowers(n, b, b2, b3);
    var x, c := 0x7839DA45F9F92DB722784655225192F552C44BBA55B167011A45EE8572405FEC, 0;
    f := e;
    c := 0x77ECA9F56CB02EB2E87F2375EE2915B14AD7AA4AB73F81EB01F2FE0E00AEE2FD; f := Next(n, b, f, x, 1, b, c); x := c;
    c := 0xDC0CA20E1ADE8D10CC703DA2EF2CABD18A045365CD97CAAF16296A7851D42D4F; f := Next(n, b, f, x, 2, b2, c); x := c;
    c := 0x5129D32ACD6315233AFF9E8BF28CF50BCD97BF5E807C9AB13293510F35434E44; f := Next(n, b, f, x, 3, b3, c); x := c;
    c := 0xDE03FA2EF8A6BFC9C1A1A2009A95CAABF325B61F97B6EFA0057B08A7B0C706A2; f := Next(n, b, f, x, 1, b, c); x := c;
    c := 0xB240AEE9B0A0B646C09083ABB9E855B08178D9D741BF305A394AAA0154F3D416; f := Next(n, b, f, x, 1, b, c); x := c;
    c := 0x516878891CBE6FAF2D3BB8DAED12F2B517C60B0F8CEC60A44B1AA4806842BE0B; f := Next(n, b, f, x, 0, 1, c); x := c;
    c := 0xB5ACE3C72EA497CC0E29CB2174E29290DD80A1C94595BA9A345DA46D648C68C4; f := Next(n, b, f, x, 3, b3, c); x := c;
    c := 0xC10EEFF51B8DED40E86623B67F2A0941B797AF178A83A3205FED2DAEB65B82BB; f := Next(n, b, f, x, 0, 1, c); x := c;
    c := 0x66D65A34DA5FE337DBC7A04654FB1BEEA8430AEF5A3B797033F13432522D9A16; f := Next(n, b, f, x, 0, 1, c); x := c;
    c := 0xFF59506AD5B63EB0845F1D662C3D77CE338F82590148004F41EF180267A46718; f := Next(n, b, f, x, 0, 1, c); x := c;
    c := 0x48655E700A3FC23478B9D43298A1CB25F8D07790CCE66194352D7D3A5E1FBB51; f := Next(n, b, f, x, 3, b3, c); x := c;
    c := 0x95A34550B678EEB9BFCAB19C1A1D30122C34D0EAEF4310B17B60D1EB940C5515; f := Next(n, b, f, x, 1, b, c); x := c;
    c := 0x649B355865BE3675629691901FF9BC178031736B9E351B0C18676098DD0A9788; f := Next(n, b, f, x, 2, b2, c); x := c;
    c := 0x40042882C57082E5BAE5AE0B2E2F5E72EB941BC2FC9B64CBCA5B56941750C8D0; f := Next(n, b, f, x, 2, b2, c); x := c;
    c := 0xCDB983EE4982C6BE50013ADC75502186739CD5AC2714247DBB5D7E57A5C9D5FC; f := Next(n, b, f, x, 1, b, c); x := c;
    c := 0x9A2FE06C38FBDE1344F57D8EE4D0F3D173CFA7775CDF8FF3C705ABC1BCBDCD7C; f := Next(n, b, f, x, 0, 1, c); x := c;
  }

  lemma OrderQPart8(e: nat) returns (f: nat)
    requires Leaves(P, 987408, e, 0x9A2FE06C38FBDE1344F57D8EE4D0F3D173CFA7775CDF8FF3C705ABC1BCBDCD7C)
    ensures f == 0x100000000 * e + 0xF338AAFB
    ensures Leaves(P, 987408, f, 1)
  {
    var n := 0xFFFFFFFFFFFFFFFFFFFFFFFFFFFFFFFFFFFFFFFFFFFFFFFFFFFFFFFEFFFFFC2F;
    var b := 987408;
    var b2 := 0xE301032100;
    var b3 := 0xD5C307034631000;
    FirstPowers(n, b, b2, b3);
    var x, c := 0x9A2FE06C38FBDE1344F57D8EE4D0F3D173CFA7775CDF8FF3C705ABC1BCBDCD7C, 0;
    f := e;
    c := 0xA52219A26C5AE314250C962BD7FAB34A12FFD8AB3888DA64FB94BB2BA0BA91EF; f := Next(n, b, f, x, 3, b3, c); x := c;
    c := 0x1B1F9E72508234908387CD41F98E63B3A8E652246B6B673F25970410D5FD7D32; f := Next(n, b, f, x, 3, b3, c); x := c;
    c := 0xFDBE6810F54F39C102E87E4E3F274C6B7E50EF8443815928A907572CA2C85CDE; f := Next(n, b, f, x, 0, 1, c); x := c;
    c := 0x5901B24399FAEDFC5ADCC4CDE7BFA403EF80163E5321852E8E7E3BCCCB9334F6; f := Next(n, b, f, x, 3, b3, c); x := c;
    c := 0x6DEAFA71EDCD4853A19F82660D122DAC3AB1E4A1A99AD9F49E95F00F8803047; f := Next(n, b, f, x, 0, 1, c); x := c;
    c := 0x1BCB6D749E3516D5827D52E26FE24518B1E130E727BF7AB2B2A142C3105C172D; f := Next(n, b, f, x, 3, b3, c); x := c;
    c := 0x2FB309511DD1C3C34E8F7B386E135E414EFB0581CBA5BAF068D2E1100BB58EFF; f := Next(n, b, f, x, 2, b2, c); x := c;
    c := 0xFEB4A85E0A18A6E9B670268BD571139D1AB64E7AF13206A6D9E35654A7456D2A; f := Next(n, b, f, x, 0, 1, c); x := c;
    c := 0x538D52AB3348AF0260EFAF5FD27A589F344A41CE3DC31D9763CB338ADD49CD5A; f := Next(n, b, f, x, 2, b2, c); x := c;
    c := 0x35F889E672127E44AD7E53A88B584B6F9F339C90B76A3449380AACDF3DC3BBA6; f := Next(n, b, f, x, 2, b2, c); x := c;
    c := 0xD9CC1FA80B5730A40CCA4ED5B97BE4EC173BC5A3799EE6935290460EB586FB82; f := Next(n, b, f, x, 2, b2, c); x := c;
    c := 0xCB81CEE2EC139C73E084CB3A92428C0A6AFAFE6A33B3B23A3103CB5AC2F0B005; f := Next(n, b, f, x, 2, b2, c); x := c;
    c := 0x641143EB040BFB366F58DE6D56CE1ACC5B238FDDA290ADB0F009CD0033682B65; f := Next(n, b, f, x, 3, b3, c); x := c;
    c := 0x102A0D8FD5B02F8FB6FB68D10B96653D8237F13B84A0048B547D8DA43B1B85BA; f := Next(n, b, f, x, 3, b3, c); x := c;
    c := 0x448B1C5043E5181ECF99FE250E5D037E3290FEB66168BDF77B435A5FBE676838; f := Next(n, b, f, x, 2, b2, c); x := c;
    c := 1; f := Next(n, b, f, x, 3, b3, c); x := c;
  }

  lemma OrderQ()
    ensures Witnessed(P, Q)
  {
    var b: nat := 987408;
    LeavesZero(P, b);
    var e := OrderQPart1(0);
    e := OrderQPart2(e);
    e := OrderQPart3(e);
    e := OrderQPart4(e);
    e := OrderQPart5(e);
    e := OrderQPart6(e);
    e := OrderQPart7(e);
    e := OrderQPart8(e);
    QIsPrime();
    Witness(P, Q, b, 0xE11F83B1A1EC30438338D5F6CE0E98DDC12536CFDD9B613AB195A4D0D0ABADA8);
  }

  /** The field prime is prime. */
  lemma PIsPrime()
    ensures Prime(P)
  {
    OrderQ();
    OneFactor(P, Q);
  }
}
