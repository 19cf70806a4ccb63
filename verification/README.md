# IPv4 classful and classless calculator, modelled in Dafny

This project models the arithmetic core of `ip_calculator.py`, an IPv4 calculator with three jobs:

- **Class statistics.** For an address, it finds the class (A to E) from a six-row class table. It reports the number of networks and hosts of that class, and the class's first and last address.
- **Subnetting.** For an address and a subnet mask, it derives:
  - the class default mask;
  - the block size and the number of addressable hosts per subnet;
  - the number of subnets the mask carves out of the classful network;
  - the subnet bases, enumerated by a loop;
  - the broadcast, first and last address of every subnet.
- **Supernetting.** For a list of addresses, it finds the common-prefix mask and the supernet address.

Classes A, B and C follow section 3.2 of RFC 791; class D is the multicast range of section 4 of RFC 1112. Supernetting is the prefix aggregation of section 3.1 of RFC 4632.

Addresses and masks are naturals below 2^32 (`Bits.Word`). The class table's `first` field is a plain natural, because its sentinel row holds 2^32. Bitwise reasoning uses the 32 bits of a word, listed most significant bit first (`Bits.ToBits`).

The modules are:

- `Bits`: powers of two and bit strings. It also gives explicit definitions of the helpers the calculator imports but that are not part of this model. Each of these definitions is an ASSUMPTION about what the helper computes:
  - `LeadingOnes` for `binutils.leading_1s`;
  - `XnorAll` for `binutils.xnor_all`;
  - `OnesThenZeros` for `binutils.n1s_then_n0s`;
  - `And` for the address type's `&`.

  `Subnet.ListAdd` is likewise an ASSUMPTION about `common.list_add_and_str`: it adds the offset to every address, with offset 0 when none is given (the joining into text is left out).
- `IpClass`: the class table, the class lookup and the per-class statistics.
- `Blocks`: runs of equal, consecutive address blocks. This is the arithmetic behind the subnet enumeration, stated without reference to classes.
- `Subnet`:
  - the default mask, block size, host count and subnet count;
  - `ValidSubnetIps`, the enumeration loop, as a method with a loop;
  - the four offset lists.
- `Supernet`: the supernet mask and address, and the longest common prefix they are compared with.

**How `leading_1s` is read.** One natural reading counts one-bits from bit 31 downwards. Under that reading, line 70 would give 1 subnet for every class C address with a /26 mask, since `mask - default_mask` has bit 31 clear. The model follows the reading that makes line 70 produce 4 for /26: `leading_1s(x)` counts the leading `1` characters of `bin(x)`, the run that starts at the highest set bit. That reading is what makes the supernet code miss an input when the inputs differ in bit 31 but agree on some lower bit (second finding below).

## Model

| member | source | states |
|---|---|---|
| IpClass.TableOrdered | ip_calculator.py:7-14 | The table's boundaries start at 0, strictly increase and end with the sentinel 2^32 |
| IpClass.ClassIndex | ip_calculator.py:16-17 | class2int gives a position below 5 at which "ABCDE" holds the class, so int2class undoes class2int |
| IpClass.IndexClass | ip_calculator.py:16-20 | class2int undoes int2class: the class at position i of "ABCDE" has index i |
| IpClass.ClassSearch | ip_calculator.py:22-25 | The scan from row i stops at the first class whose successor row starts above the address; every row it skipped starts at or below it; None only if every later row starts at or below it |
| IpClass.ClassOf | ip_calculator.py:22-25 | The returned class's table range [first, next first) holds the address |
| IpClass.ClassSearchTotal | ip_calculator.py:22-25 | For every 32-bit value the scan finds a class; it never falls off the table |
| IpClass.ClassUnique | ip_calculator.py:22-25 | A class whose range holds the address is the class the lookup returns |
| IpClass.ClassOfLeadingBits | ip_calculator.py:7-14 | The class index equals the number of leading one-bits among the top four bits (0, 10, 110, 1110, 1111), the rule of RFC 791 and RFC 1112 |
| IpClass.Row | ip_calculator.py:27-28 | Offset 0 gives the table row k whose range [first of row k, first of row k + 1) holds the address, offset 1 the row after it |
| IpClass.NetworkCount | ip_calculator.py:30-32 | 128, 16384 or 2097152 networks for A, B and C; "N/A" for D and E |
| IpClass.HostCount | ip_calculator.py:34-36 | 16777216, 65536 or 256 hosts for A, B and C; "N/A" for D and E |
| IpClass.FirstAddress | ip_calculator.py:38-39 | The result is at or below the address and in its class, and no lower address is in that class |
| IpClass.LastAddress | ip_calculator.py:41-42 | The result is at or above the address and in its class, and no higher address is; class E ends at 255.255.255.255 because of the sentinel |
| IpClass.ClassAExample | ip_calculator.py:30-42 | 10.0.0.1 is class A: 128 networks of 16777216 hosts, from 0.0.0.0 to 127.255.255.255 |
| Subnet.Inverse | ip_calculator.py:60-61 | ip_inverse of x is non-negative exactly when x is at most 2^32, and then it is at most 2^32 and adds up with x to 2^32 |
| Subnet.InverseInvolution | ip_calculator.py:60-61 | ip_inverse applied twice gives back any x from 0 to 2^32 |
| Subnet.DefaultPrefix | ip_calculator.py:66-67 | The default prefix is 8, 16 or 24 for classes A, B and C |
| Subnet.DefaultMask | ip_calculator.py:66-67 | The default mask is the contiguous mask of the default prefix: 255.0.0.0, 255.255.0.0 or 255.255.255.0 |
| Subnet.BlockSize | ip_calculator.py:63-64 | 2^32 minus the mask is between 1 and 2^32 for every 32-bit mask |
| Subnet.AddressableHosts | ip_calculator.py:79-80 | The host count per subnet lies between -1 and 2^32 - 2 |
| Subnet.SubnetCount | ip_calculator.py:69-70 | For a mask at or above the default mask, the subnet count is between 1 and the size of the classful network |
| Subnet.ExtraOnes | ip_calculator.py:69-70 | A contiguous /n mask refines the default mask and adds exactly n - default prefix one-bits to it |
| Subnet.ContiguousCount | ip_calculator.py:69-70 | A contiguous /n mask gives 2^(n - default prefix) subnets |
| Subnet.ContiguousMask | ip_calculator.py:63-70 | A contiguous /n mask gives 2^(n - default prefix) subnets of 2^(32 - n) addresses, 2^(32 - n) - 2 of them hosts; together the subnets span exactly the classful network |
| Subnet.SubnetBases | ip_calculator.py:72-77 | The yielded bases number exactly the subnet count; the first is address AND mask and base i lies i blocks above it |
| Subnet.SubnetBasesSpaced | ip_calculator.py:72-77 | The enumerated bases number exactly the subnet count, start at address AND mask, are exactly one block apart and strictly ascend |
| Subnet.ValidSubnetIps | ip_calculator.py:72-77 | The loop yields exactly the subnet count of bases: the run of blocks from address AND mask |
| Subnet.ContiguousBases | ip_calculator.py:72-77 | For a contiguous /n mask, the enumeration is the run of 2^(n - p) blocks of 2^(32 - n) addresses from address AND mask, p being the default prefix |
| Subnet.ListAdd | ip_calculator.py:82-92 | Each output address is the input address at the same position plus the offset, and the length is unchanged |
| Subnet.ValidSubnets | ip_calculator.py:82-83 | One entry per subnet, entry i being base i |
| Subnet.BroadcastAddresses | ip_calculator.py:85-86 | One entry per subnet, entry i being base i plus the block size minus 1 |
| Subnet.FirstAddresses | ip_calculator.py:88-89 | One entry per subnet, entry i being base i plus 1 |
| Subnet.LastAddresses | ip_calculator.py:91-92 | One entry per subnet, entry i being base i plus the block size minus 2 |
| Subnet.ValidSubnetsAreBases | ip_calculator.py:82-83 | The valid subnet list is the list of bases, unchanged |
| Subnet.ListEntries | ip_calculator.py:82-92 | At position i the four lists hold the base, base + block - 1, base + 1 and base + block - 2 |
| Subnet.BlockAddresses | ip_calculator.py:85-92 | For a contiguous mask, each block lies below 2^32, and its base, broadcast, first and last address all mask back to the base |
| Subnet.SubnetListsWithinBlocks | ip_calculator.py:72-92 | For a contiguous mask, the four lists are as long as the bases and hold the four offsets. Each address lies in its base's subnet, and each next base directly follows the previous broadcast address |
| Subnet.NonContiguousBasesPassLimit | ip_calculator.py:69-77 | For 0.0.0.0 with the non-contiguous mask 255.127.255.255 there are 2^23 subnets of 2^23 + 1 addresses, and base 512 lies at or above 2^32 |
| Subnet.Example10 | ip_calculator.py:66-67 | 192.168.1.10 is class C with default mask 255.255.255.0 |
| Subnet.Example10Mask24 | ip_calculator.py:69-92 | 192.168.1.10 with 255.255.255.0: 1 subnet of 254 hosts; lists [192.168.1.0], [192.168.1.255], [192.168.1.1] and [192.168.1.254] |
| Subnet.Example10Mask26 | ip_calculator.py:69-83 | 192.168.1.10 with 255.255.255.192: 4 subnets of 62 hosts, at 192.168.1.0, .64, .128 and .192 |
| Subnet.SubnetBasesFromAddress | ip_calculator.py:72-77 | 192.168.1.70 with 255.255.255.192 enumerates 192.168.1.64, .128, .192 and 192.168.2.0 |
| Subnet.SubnetBasesLeaveNetwork | ip_calculator.py:72-77 | In that case the last base lies outside the class C network 192.168.1.0, and that network's first subnet 192.168.1.0 is missing |
| Subnet.ClassfulSubnetBases | ip_calculator.py:72-77 | The corrected enumeration, starting at the classful network, has one base per subnet |
| Subnet.EnumerationsAgreeIff | ip_calculator.py:72-77 | The enumeration as written equals the corrected one if and only if address AND mask is the start of the classful network |
| Subnet.ClassfulSubnetsTileNetwork | ip_calculator.py:72-77 | For a contiguous mask, every corrected base is an aligned subnet inside the classful network, and every address of that network falls into one of their blocks |
| Blocks.RunSpaced | ip_calculator.py:75-77 | Consecutive bases of a run are one block apart, and the run strictly ascends |
| Blocks.StepBelowEnd | ip_calculator.py:74-77 | The next base is one block further, and base k lies below the loop bound exactly when k is below the count |
| Blocks.RunAddresses | ip_calculator.py:73-77 | Every block of a run that starts at x AND the /n mask is a /n subnet holding its own offset addresses |
| Blocks.Tiles | ip_calculator.py:72-77 | A run that starts at a /p network lists exactly the /n subnets of that network |
| Bits.PrefixMask | ip_calculator.py:128 | n1s_then_n0s(n, 32 - n) is 2^32 - 2^(32 - n) |
| Bits.PrefixMaskBits | ip_calculator.py:128 | The mask's bits are n ones followed by 32 - n zeros |
| Bits.LeadingOnesOfOnesThenZeros | ip_calculator.py:70 | leading_1s of n ones followed by any number of zeros is n |
| Bits.XnorAllBits | ip_calculator.py:126 | Bit i of the common bits is set exactly when all inputs agree on bit i |
| Bits.AndPrefixMask | ip_calculator.py:73 | An address AND a /n mask is the address rounded down to a multiple of 2^(32 - n) |
| Supernet.SupernetPrefix | ip_calculator.py:126-127 | The prefix length leading_1s(xnor_all(addrs)) is at most 32 |
| Supernet.SupernetMask | ip_calculator.py:125-128 | The mask has exactly the supernet prefix length of leading one-bits and spans 2^(32 - prefix) addresses |
| Supernet.SupernetAddress | ip_calculator.py:118-123 | The address is the first input AND the mask, and it is unchanged by masking again |
| Supernet.MaskIdempotent | ip_calculator.py:121 | Masking a masked address again changes nothing |
| Supernet.SamePrefixMasked | ip_calculator.py:121 | Two words mask to the same /n block if and only if they agree on their top n bits |
| Supernet.CommonPrefixAgree | ip_calculator.py:126 | All inputs share a /n block if and only if they agree on each of the top n bits |
| Supernet.CommonPrefixUpTo | ip_calculator.py:126-127 | All inputs share a /n block if and only if n is at most the longest common prefix length |
| Supernet.CorrectedSupernetAddress | ip_calculator.py:118-128 | The supernet built from the longest common prefix holds every input, and no longer prefix holds them all |
| Supernet.SupernetPrefixCorrectIff | ip_calculator.py:125-128 | The code's prefix is the longest common prefix if and only if the inputs agree on bit 31 or agree on no bit |
| Supernet.SupernetAddressSmallest | ip_calculator.py:118-128 | When the inputs agree on bit 31 or on no bit, every input masks to the supernet address, and no longer prefix holds them all |
| Supernet.SupernetLeavesOutInput | ip_calculator.py:118-128 | For every other input list (differing in bit 31, agreeing on some lower bit) the prefix is longer than /0 and some input masks to a different address than the supernet address |
| Supernet.SupernetMissesInput | ip_calculator.py:118-128 | For 0.0.0.0 and 128.0.0.0 the code returns a prefix longer than /0 whose block leaves out 128.0.0.0 |
| Supernet.SupernetExample | ip_calculator.py:118-128 | 10.0.0.0 and 10.0.1.0 give prefix 23 and the supernet 10.0.0.0 with mask 255.255.254.0 |

## Left out

- Reading input, dispatching on its shape and printing the three reports (`main`, `get_class_stats`, `get_subnet_stats`, `get_supernet_stats`): these are I/O around the arithmetic.
- Parsing and rendering dotted-decimal text: these live in the `ip_address` module, which is not part of this model. Addresses enter the model as naturals below 2^32.
- The string joining done by `list_add_and_str`: `common.py` is not part of this model. Only the sequence of offset addresses is modelled (`Subnet.ListAdd`).
- `binutils.py` and `ip_address.py` are not part of this model. `LeadingOnes`, `XnorAll`, `OnesThenZeros` and `And` are explicit definitions of what they are assumed to compute.
- The address type's own range checks: enumerated bases are plain naturals. For contiguous masks every block stays below 2^32 (`Subnet.BlockAddresses`). Non-contiguous masks at or above the default mask can take the bases past 2^32 (`Subnet.NonContiguousBasesPassLimit`); what the address type would do there is not modelled.
- Subnet.DefaultMask: requires a class A to C address. For D and E the source computes `2 ** None`, which raises a TypeError, and the model does not include that error path.
- Subnet.SubnetCount: requires the mask to be at or above the default mask, where `mask - default_mask` is a valid word. Masks below the default, and non-contiguous masks, give results the source does not promise.
- Subnet.SubnetListsWithinBlocks: stated only for contiguous masks. For other masks the enumeration is modelled, but its blocks need not be subnets.
- Supernet.SupernetPrefix: requires at least one address, as the source's `ipaddrs[0]` does. The empty list is not modelled.
- Supernet.SupernetAddressSmallest: covering and maximality are proved for inputs that agree on bit 31 or on no bit. For inputs that differ in bit 31 but agree on some lower bit, the returned block leaves out an input (`Supernet.SupernetLeavesOutInput`); see the findings.

## Findings

| source | as written | input that shows it | evidently intended | confidence | as-written member | corrected member |
|---|---|---|---|---|---|---|
| ip_calculator.py:72-77 | The enumeration starts at address AND mask, so it lists the subnet count of blocks from the address's own subnet onwards | 192.168.1.70 with mask 255.255.255.192: bases 192.168.1.64, .128, .192 and 192.168.2.0 | The subnets of the classful network 192.168.1.0: .0, .64, .128 and .192 | medium, not executed | Subnet.SubnetBasesLeaveNetwork | Subnet.ClassfulSubnetsTileNetwork |
| ip_calculator.py:125-128 | leading_1s of the agreement bits counts from their highest set bit, not from bit 31 | [0.0.0.0, 128.0.0.0]: they differ only in bit 31, so the agreement bits are 0x7FFFFFFF, the mask is longer than /0 (it is /31), and 128.0.0.0 falls outside the block of 0.0.0.0 | The longest common prefix, here /0 (0.0.0.0/0) | medium, under the assumed leading_1s; not executed | Supernet.SupernetMissesInput | Supernet.CorrectedSupernetAddress |
